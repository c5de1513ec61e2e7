/** The pure rules of the notes page (frontend/src/pages/NotesPage/NotesPage.jsx):
    the Prev/Next page clamps, the title guard and trimming of the create and
    save forms, and which query parameters the page writes to and accepts
    from its URL. */
module PageRules {
  import opened Wrappers
  import opened JsString
  import NoteSchema

  // ----- pagination -----

  /** The Prev button is disabled at `currentPage <= 1`. */
  predicate PrevEnabled(current: int)
    // disabled exactly where a click could not move off the current page
    ensures current >= 1 ==> (PrevEnabled(current) <==> PrevPage(current) != current)
  {
    !(current <= 1)
  }

  /** The Next button is disabled at `currentPage >= totalPages`. */
  predicate NextEnabled(current: int, total: int)
    ensures current <= total ==> (NextEnabled(current, total) <==> NextPage(current, total) != current)
  {
    !(current >= total)
  }

  /** `Math.max(1, prev - 1)`. */
  function PrevPage(current: int): (p: int)
    ensures p >= 1
    ensures p <= current || current < 1
  {
    if current - 1 < 1 then 1 else current - 1
  }

  /** `Math.min(totalPages, prev + 1)`. */
  function NextPage(current: int, total: int): (p: int)
    ensures p <= total
    ensures p <= current + 1
  {
    if total < current + 1 then total else current + 1
  }

  /** An enabled button moves exactly one page, and never leaves `1..total`. */
  lemma PageStepsStayInRange(current: int, total: int)
    requires 1 <= current <= total
    ensures PrevEnabled(current) ==> PrevPage(current) == current - 1
    ensures NextEnabled(current, total) ==> NextPage(current, total) == current + 1
    ensures 1 <= PrevPage(current) <= total && 1 <= NextPage(current, total) <= total
    ensures !PrevEnabled(current) <==> current == 1
    ensures !NextEnabled(current, total) <==> current == total
  {
  }

  /** Next undoes Prev, and Prev undoes Next, where the buttons are enabled. */
  lemma PrevNextInverse(current: int, total: int)
    ensures PrevEnabled(current) && current <= total ==> NextPage(PrevPage(current), total) == current
    ensures NextEnabled(current, total) && 1 <= current ==> PrevPage(NextPage(current, total)) == current
  {
  }

  // ----- the create and save forms -----

  /** The fields sent to create or update a note. */
  datatype Payload = Payload(title: string, body: string)

  /** `handleCreateSubmit` and `saveEditing`: nothing is sent when the title is
      blank after trimming; otherwise both fields are sent trimmed. */
  function SubmitPayload(title: string, body: string): (p: Option<Payload>)
    ensures p.None? <==> AllWhitespace(title)
    ensures p.Some? ==> p.value == Payload(Trim(title), Trim(body))
    ensures p.Some? ==> p.value.title != [] && IsTrimmed(p.value.title) && IsTrimmed(p.value.body)
  {
    TrimEmptyIff(title);
    if Trim(title) == [] then None else Some(Payload(Trim(title), Trim(body)))
  }

  /** The client guard is the schema's `required` rule: a title the form
      refuses is one the store would refuse too, and conversely. */
  lemma GuardMatchesSchema(title: string, body: string)
    ensures SubmitPayload(title, body).None? <==>
              NoteSchema.TitleRequired in NoteSchema.Errors(NoteSchema.NoteInput(Some(title), Some(body)))
  {
    NoteSchema.ErrorsExplained(NoteSchema.NoteInput(Some(title), Some(body)));
  }

  /** What the form sends is what the store keeps, unchanged by its own
      trimming, whenever it is within the length limits. */
  lemma PayloadStoredAsSent(title: string, body: string)
    requires SubmitPayload(title, body).Some?
    requires Utf16Length(Trim(title)) <= NoteSchema.TitleMaxLength
    requires Utf16Length(Trim(body)) <= NoteSchema.BodyMaxLength
    ensures var p := SubmitPayload(title, body).value;
            NoteSchema.Validate(NoteSchema.NoteInput(Some(p.title), Some(p.body)))
              == Success(NoteSchema.StoredNote(p.title, Some(p.body)))
  {
    var p := SubmitPayload(title, body).value;
    NoteSchema.RevalidateStored(NoteSchema.StoredNote(p.title, Some(p.body)));
  }

  // ----- the URL -----

  /** A query string as an ordered list of name/value pairs. */
  type Params = seq<(string, string)>

  /** `URLSearchParams.get`: the value of the first pair with that name. */
  function Get(params: Params, name: string): (v: Option<string>)
    ensures v.Some? <==> exists i :: 0 <= i < |params| && params[i].0 == name
    ensures v.Some? ==> exists i :: 0 <= i < |params| && params[i] == (name, v.value)
                                  && forall k :: 0 <= k < i ==> params[k].0 != name
  {
    if params == [] then None
    else if params[0].0 == name then Some(params[0].1)
    else Get(params[1..], name)
  }

  /** The parameters the page writes to its URL: `page` only above page 1,
      `q` only when the trimmed query is not blank, and then trimmed. */
  function WrittenParams(page: int, query: string): (ps: Params)
    ensures Get(ps, "page").Some? <==> page > 1
    ensures Get(ps, "q").Some? <==> !AllWhitespace(query)
    ensures Get(ps, "q").Some? ==> Get(ps, "q").value == Trim(query)
    ensures page > 1 ==> Get(ps, "page") == Some(DecimalString(page))
    // nothing else is written, and each name at most once
    ensures forall i :: 0 <= i < |ps| ==> ps[i].0 == "page" || ps[i].0 == "q"
    ensures forall i, j :: 0 <= i < j < |ps| ==> ps[i].0 != ps[j].0
  {
    TrimEmptyIff(query);
    (if page > 1 then [("page", DecimalString(page))] else [])
    + (if Trim(query) != [] then [("q", Trim(query))] else [])
  }

  /** The page read from the URL on mount: `parseInt(page || '1', 10)`, taken
      only when it is a finite number above 1. */
  function AcceptedPage(params: Params): (p: Option<int>)
    ensures p.Some? ==> p.value > 1
    // the default '1' is never taken: only a `page` that parses above 1 is
    ensures p.Some? <==> Get(params, "page").Some? && ParseInt(Get(params, "page").value).Some?
                         && ParseInt(Get(params, "page").value).value > 1
    ensures p.Some? ==> p == ParseInt(Get(params, "page").value)
  {
    ParseDecimal(1);
    assert DecimalString(1) == "1";
    var raw := Get(params, "page");
    var text := if raw.None? || raw.value == "" then "1" else raw.value;
    var n := ParseInt(text);
    if n.Some? && n.value > 1 then n else None
  }

  /** The query read from the URL on mount, taken (untrimmed) only when it is
      not blank. */
  function AcceptedQuery(params: Params): (q: Option<string>)
    ensures q.Some? ==> !AllWhitespace(q.value)
    ensures q.Some? <==> Get(params, "q").Some? && !AllWhitespace(Get(params, "q").value)
    ensures q.Some? ==> q.value == Get(params, "q").value
  {
    var raw := Get(params, "q");
    var text := if raw.None? then "" else raw.value;
    TrimEmptyIff(text);
    if Trim(text) != [] then Some(text) else None
  }

  /** A `page` value typed by the user, read the way `parseInt` reads it:
      whitespace, an optional sign, digits, then anything not a digit. It is
      taken exactly when it is unsigned or `+` and its digits are above 1. */
  lemma AcceptedPageReads(params: Params, w: string, sign: string, d: string, rest: string)
    requires Get(params, "page") == Some(w + sign + d + rest)
    requires AllWhitespace(w)
    requires sign == "" || sign == "+" || sign == "-"
    requires d != [] && AllDigits(d)
    requires rest == [] || !IsDigit(rest[0])
    ensures AcceptedPage(params) == if sign != "-" && DigitsValue(d) > 1 then Some(DigitsValue(d) as int) else None
  {
    ParseIntReads(w, sign, d, rest);
  }

  /** The page and query the page starts with. */
  function InitialPage(params: Params): (p: int)
    ensures p >= 1
    ensures p == 1 || (Get(params, "page").Some? && ParseInt(Get(params, "page").value) == Some(p))
  {
    AcceptedPage(params).GetOr(1)
  }

  function InitialQuery(params: Params): (q: string)
    ensures q == "" || (Get(params, "q") == Some(q) && !AllWhitespace(q))
  {
    AcceptedQuery(params).GetOr("")
  }

  /** Reloading the page restores its page number, and its query up to
      surrounding whitespace, from the URL it wrote. */
  lemma UrlRoundTrip(page: int, query: string)
    requires page >= 1
    ensures InitialPage(WrittenParams(page, query)) == page
    ensures InitialQuery(WrittenParams(page, query)) == Trim(query)
  {
    UrlPageRoundTrip(page, query);
    UrlQueryRoundTrip(page, query);
  }

  lemma UrlPageRoundTrip(page: int, query: string)
    requires page >= 1
    ensures InitialPage(WrittenParams(page, query)) == page
  {
    var ps := WrittenParams(page, query);
    if page > 1 {
      assert ps[0] == ("page", DecimalString(page));
      assert Get(ps, "page") == Some(DecimalString(page));
      ParseDecimal(page);
    } else {
      assert DecimalString(1) == "1";
      ParseDecimal(1);
    }
  }

  lemma UrlQueryRoundTrip(page: int, query: string)
    ensures InitialQuery(WrittenParams(page, query)) == Trim(query)
  {
    var ps := WrittenParams(page, query);
    TrimEmptyIff(query);
    if Trim(query) != [] {
      assert Get(ps, "q") == Some(Trim(query));
      TrimIdempotent(query);
      assert AcceptedQuery(ps) == Some(Trim(query));
    }
  }
}
