/** The note schema of backend/models/note.js, as the validator the document
    store runs on every create: `title` is required, trimmed and at most 80
    long; `body` is optional, trimmed and at most 250 long. Lengths are
    JavaScript string lengths. */
module NoteSchema {
  import opened Wrappers
  import opened JsString

  const TitleMaxLength: nat := 80
  const BodyMaxLength: nat := 250

  /** The fields a request hands to the model; `None` is a missing or null value. */
  datatype NoteInput = NoteInput(title: Option<string>, body: Option<string>)

  /** The fields as stored, after the trim setters ran. */
  datatype StoredNote = StoredNote(title: string, body: Option<string>)

  /** One failing path of the document; the store reports every failing path together. */
  datatype FieldError = TitleRequired | TitleTooLong | BodyTooLong

  /** What a stored note satisfies. */
  predicate ValidNote(n: StoredNote)
    // a stored field is one the trim setter leaves alone, and the 80-unit
    // limit also bounds the title's count of characters
    ensures ValidNote(n) ==> Trim(n.title) == n.title && |n.title| <= TitleMaxLength
    ensures ValidNote(n) && n.body.Some? ==> Trim(n.body.value) == n.body.value
  {
    var ok :=
      && n.title != []
      && IsTrimmed(n.title)
      && Utf16Length(n.title) <= TitleMaxLength
      && (n.body.Some? ==> IsTrimmed(n.body.value) && Utf16Length(n.body.value) <= BodyMaxLength);
    if !ok then false
    else
      TrimOfTrimmed(n.title);
      if n.body.Some? then TrimOfTrimmed(n.body.value); true else true
  }

  /** The `trim: true` setter, applied when a value is cast into the document. */
  function CastTrimmed(v: Option<string>): (r: Option<string>)
    ensures r.Some? <==> v.Some?
    ensures r.Some? ==> IsTrimmed(r.value) && Utf16Length(r.value) <= Utf16Length(v.value)
  {
    match v
    case None => None
    case Some(s) => TrimShortens(s); Some(Trim(s))
  }

  /** The failing validators: `required` fails on a missing or empty string,
      `maxLength` on a present value that is too long. */
  function Errors(input: NoteInput): set<FieldError> {
    set e: FieldError | Fails(e, CastTrimmed(input.title), CastTrimmed(input.body))
  }

  /** Whether validator `e` fails on the cast title and body. */
  predicate Fails(e: FieldError, title: Option<string>, body: Option<string>) {
    match e
    case TitleRequired => title.None? || title.value == []
    case TitleTooLong => title.Some? && Utf16Length(title.value) > TitleMaxLength
    case BodyTooLong => body.Some? && Utf16Length(body.value) > BodyMaxLength
  }

  /** Casting followed by validation: the stored note, or every failing path. */
  function Validate(input: NoteInput): (r: Result<StoredNote, set<FieldError>>)
    ensures r.Failure? <==> Errors(input) != {}
    ensures r.Failure? ==> r.error == Errors(input)
    ensures r.Success? ==> ValidNote(r.value)
    ensures r.Success? ==> input.title.Some? && r.value.title == Trim(input.title.value)
    ensures r.Success? ==> r.value.body == CastTrimmed(input.body)
  {
    var title, body := CastTrimmed(input.title), CastTrimmed(input.body);
    var errs := Errors(input);
    if errs != {} then Failure(errs)
    else
      assert TitleRequired !in errs && TitleTooLong !in errs && BodyTooLong !in errs;
      Success(StoredNote(title.value, body))
  }

  /** Each validator fails exactly on the inputs the schema line describes. */
  lemma ErrorsExplained(input: NoteInput)
    ensures TitleRequired in Errors(input) <==> input.title.None? || AllWhitespace(input.title.value)
    ensures TitleTooLong in Errors(input) <==>
              input.title.Some? && Utf16Length(Trim(input.title.value)) > TitleMaxLength
    ensures BodyTooLong in Errors(input) <==>
              input.body.Some? && Utf16Length(Trim(input.body.value)) > BodyMaxLength
  {
    if input.title.Some? {
      TrimEmptyIff(input.title.value);
    }
    var title, body := CastTrimmed(input.title), CastTrimmed(input.body);
    assert TitleRequired in Errors(input) <==> Fails(TitleRequired, title, body);
    assert TitleTooLong in Errors(input) <==> Fails(TitleTooLong, title, body);
    assert BodyTooLong in Errors(input) <==> Fails(BodyTooLong, title, body);
  }

  /** A note is accepted exactly when its trimmed fields make a valid stored note. */
  lemma ValidateAcceptsExactly(input: NoteInput)
    ensures Validate(input).Success? <==>
              input.title.Some? && ValidNote(StoredNote(Trim(input.title.value), CastTrimmed(input.body)))
  {
  }

  /** A title that is blank after trimming is rejected, whatever the body. */
  lemma BlankTitleRejected(title: string, body: Option<string>)
    requires AllWhitespace(title)
    ensures Validate(NoteInput(Some(title), body)) == Failure(Errors(NoteInput(Some(title), body)))
    ensures TitleRequired in Validate(NoteInput(Some(title), body)).error
  {
    ErrorsExplained(NoteInput(Some(title), body));
  }

  /** The title bound: at most 80 after trimming is accepted (for a non-blank
      title and no body), more than 80 is rejected. */
  lemma TitleLengthBound(title: string, body: Option<string>)
    ensures Utf16Length(Trim(title)) > TitleMaxLength ==>
              Validate(NoteInput(Some(title), body)).Failure?
    ensures !AllWhitespace(title) && Utf16Length(Trim(title)) <= TitleMaxLength ==>
              Validate(NoteInput(Some(title), None)) == Success(StoredNote(Trim(title), None))
  {
    ErrorsExplained(NoteInput(Some(title), body));
    ErrorsExplained(NoteInput(Some(title), None));
  }

  /** The body is optional, and its bound is checked on the trimmed value. */
  lemma BodyRules(title: string, body: string)
    requires !AllWhitespace(title) && Utf16Length(Trim(title)) <= TitleMaxLength
    ensures Validate(NoteInput(Some(title), None)).Success?
    ensures Validate(NoteInput(Some(title), Some(body))).Success? <==>
              Utf16Length(Trim(body)) <= BodyMaxLength
    ensures Validate(NoteInput(Some(title), Some(body))).Success? ==>
              Validate(NoteInput(Some(title), Some(body))).value.body == Some(Trim(body))
  {
    ErrorsExplained(NoteInput(Some(title), None));
    ErrorsExplained(NoteInput(Some(title), Some(body)));
  }

  /** Saving a stored note again stores the very same note: validation is
      idempotent on what it stores. */
  lemma RevalidateStored(n: StoredNote)
    requires ValidNote(n)
    ensures Validate(NoteInput(Some(n.title), n.body)) == Success(n)
  {
    var input := NoteInput(Some(n.title), n.body);
    CastStoredUnchanged(n);
    forall e: FieldError ensures e !in Errors(input) {
      assert !Fails(e, Some(n.title), n.body);
    }
    assert Errors(input) == {};
  }

  lemma CastStoredUnchanged(n: StoredNote)
    requires ValidNote(n)
    ensures CastTrimmed(Some(n.title)) == Some(n.title)
    ensures CastTrimmed(n.body) == n.body
  {
    TrimOfTrimmed(n.title);
    if n.body.Some? {
      TrimOfTrimmed(n.body.value);
    }
  }
}
