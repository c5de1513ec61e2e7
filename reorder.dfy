/** The client-side drag-and-drop reorder of the notes shown on one page
    (`handleDrop` in frontend/src/pages/NotesPage/NotesPage.jsx) and the
    pinned/others split the page renders. */
module Reorder {
  import opened Wrappers

  type NoteId = string

  /** A note as the page holds it. Only `id` and `pinned` matter to reordering;
      the other fields travel with the note. */
  datatype Note = Note(id: NoteId, title: string, body: Option<string>, pinned: bool)

  /** `findIndex` by id: the first position holding `id`, or -1. */
  function FindIndex(notes: seq<Note>, id: NoteId): (i: int)
    ensures -1 <= i < |notes|
    ensures i == -1 <==> forall k :: 0 <= k < |notes| ==> notes[k].id != id
    ensures 0 <= i ==> notes[i].id == id && forall k :: 0 <= k < i ==> notes[k].id != id
  {
    if notes == [] then -1
    else if notes[0].id == id then 0
    else
      var j := FindIndex(notes[1..], id);
      if j == -1 then -1 else j + 1
  }

  /** `splice(i, 1)`: the list without its element at `i`. */
  function RemoveAt<T>(s: seq<T>, i: nat): (r: seq<T>)
    requires i < |s|
    ensures |r| == |s| - 1
  {
    s[..i] + s[i + 1..]
  }

  /** `splice(i, 0, x)`: the list with `x` inserted before position `i`. */
  function InsertAt<T>(s: seq<T>, i: nat, x: T): (r: seq<T>)
    requires i <= |s|
    ensures |r| == |s| + 1
  {
    s[..i] + [x] + s[i..]
  }

  /** The two splices of a drop: take out the element at `from`, then put it
      back at `to`, an index of the list before the removal. */
  function Move<T>(s: seq<T>, from: nat, to: nat): (r: seq<T>)
    requires from < |s| && to < |s|
    ensures |r| == |s|
  {
    InsertAt(RemoveAt(s, from), to, s[from])
  }

  /** Where each element of the list ends up after a move. */
  lemma MoveAt<T>(s: seq<T>, from: nat, to: nat, i: nat)
    requires from < |s| && to < |s| && i < |s|
    ensures Move(s, from, to)[i] ==
      if i == to then s[from]
      else if from < to && from <= i < to then s[i + 1]
      else if to < from && to < i <= from then s[i - 1]
      else s[i]
  {
    var u := RemoveAt(s, from);
    assert forall k :: 0 <= k < |u| ==> u[k] == if k < from then s[k] else s[k + 1];
  }

  /** A move is a permutation: the same notes, as many times each. */
  lemma MovePermutes<T>(s: seq<T>, from: nat, to: nat)
    requires from < |s| && to < |s|
    ensures multiset(Move(s, from, to)) == multiset(s)
  {
    var u := RemoveAt(s, from);
    assert s == s[..from] + [s[from]] + s[from + 1..];
    assert multiset(u) + multiset{s[from]} == multiset(s);
    assert u == u[..to] + u[to..];
    assert multiset(Move(s, from, to)) == multiset(u[..to]) + multiset{s[from]} + multiset(u[to..]);
  }

  /** The moved element lands at `to`, and taking it out again leaves the
      others in the order they had before: every other note keeps its
      relative order. */
  lemma MoveKeepsOthersInOrder<T>(s: seq<T>, from: nat, to: nat)
    requires from < |s| && to < |s|
    ensures Move(s, from, to)[to] == s[from]
    ensures RemoveAt(Move(s, from, to), to) == RemoveAt(s, from)
  {
    var u := RemoveAt(s, from);
    var r := Move(s, from, to);
    assert r[..to] == u[..to];
    assert r[to + 1..] == u[to..];
    assert u == u[..to] + u[to..];
  }

  /** Dragging the moved note back to where it came from restores the list. */
  lemma MoveUndone<T>(s: seq<T>, from: nat, to: nat)
    requires from < |s| && to < |s|
    ensures Move(Move(s, from, to), to, from) == s
  {
    MoveKeepsOthersInOrder(s, from, to);
    var u := RemoveAt(s, from);
    assert s == u[..from] + [s[from]] + u[from..];
  }

  /** Why a drop leaves the list alone. */
  datatype Skip = NothingDragged | OntoItself | NotOnPage | AcrossGroups

  /** The outcome of a drop's guards: skipped, or the two indices to splice. */
  datatype DropPlan = Skipped(reason: Skip) | Planned(from: nat, to: nat)

  /** A dragged id is falsy when nothing is dragged or the id is empty. */
  predicate Falsy(dragged: Option<NoteId>)
    ensures !Falsy(dragged) <==> dragged.Some? && |dragged.value| > 0
  {
    dragged.None? || dragged.value == ""
  }

  /** The guards of `handleDrop`, in the order it tests them. */
  function PlanDrop(notes: seq<Note>, dragged: Option<NoteId>, overId: NoteId): (p: DropPlan)
    ensures p.Planned? ==>
              && p.from < |notes| && p.to < |notes| && p.from != p.to
              && dragged.Some? && notes[p.from].id == dragged.value && notes[p.to].id == overId
              && notes[p.from].pinned == notes[p.to].pinned
  {
    if Falsy(dragged) then Skipped(NothingDragged)
    else if dragged.value == overId then Skipped(OntoItself)
    else
      var from := FindIndex(notes, dragged.value);
      var to := FindIndex(notes, overId);
      if from == -1 || to == -1 then Skipped(NotOnPage)
      else if notes[from].pinned != notes[to].pinned then Skipped(AcrossGroups)
      else Planned(from, to)
  }

  /** The page list after a drop. */
  function Drop(notes: seq<Note>, dragged: Option<NoteId>, overId: NoteId): (r: seq<Note>)
    ensures |r| == |notes|
  {
    match PlanDrop(notes, dragged, overId)
    case Skipped(_) => notes
    case Planned(from, to) => Move(notes, from, to)
  }

  /** Each guard rejects exactly the case it names, and a rejected drop leaves
      the list unchanged. */
  lemma DropGuards(notes: seq<Note>, dragged: Option<NoteId>, overId: NoteId)
    ensures PlanDrop(notes, dragged, overId) == Skipped(NothingDragged) <==> Falsy(dragged)
    ensures PlanDrop(notes, dragged, overId) == Skipped(OntoItself) <==>
              !Falsy(dragged) && dragged.value == overId
    ensures PlanDrop(notes, dragged, overId) == Skipped(NotOnPage) <==>
              && !Falsy(dragged) && dragged.value != overId
              && ((forall k :: 0 <= k < |notes| ==> notes[k].id != dragged.value)
                  || (forall k :: 0 <= k < |notes| ==> notes[k].id != overId))
    ensures PlanDrop(notes, dragged, overId).Skipped? ==> Drop(notes, dragged, overId) == notes
  {
    if !Falsy(dragged) && dragged.value != overId {
      var from, to := FindIndex(notes, dragged.value), FindIndex(notes, overId);
      assert from == -1 <==> forall k :: 0 <= k < |notes| ==> notes[k].id != dragged.value;
      assert to == -1 <==> forall k :: 0 <= k < |notes| ==> notes[k].id != overId;
    }
  }

  /** Ids are unique on a page. */
  predicate UniqueIds(notes: seq<Note>) {
    forall i, j :: 0 <= i < j < |notes| ==> notes[i].id != notes[j].id
  }

  /** With unique ids: a drop of a present note onto another present note is
      rejected exactly when the two differ in their pinned flag. */
  lemma AcrossGroupsRejected(notes: seq<Note>, i: nat, j: nat)
    requires UniqueIds(notes)
    requires i < |notes| && j < |notes| && i != j && notes[i].id != ""
    ensures PlanDrop(notes, Some(notes[i].id), notes[j].id) == Skipped(AcrossGroups) <==>
              notes[i].pinned != notes[j].pinned
    ensures notes[i].pinned == notes[j].pinned ==>
              PlanDrop(notes, Some(notes[i].id), notes[j].id) == Planned(i, j)
  {
    assert notes[i].id != notes[j].id by {
      if i < j {} else {}
    }
    var from := FindIndex(notes, notes[i].id);
    var to := FindIndex(notes, notes[j].id);
    assert from == i by {
      if from < i {} else if from > i {}
    }
    assert to == j by {
      if to < j {} else if to > j {}
    }
  }

  /** A successful drop is a permutation of the page list. */
  lemma DropPermutes(notes: seq<Note>, dragged: Option<NoteId>, overId: NoteId)
    ensures multiset(Drop(notes, dragged, overId)) == multiset(notes)
  {
    var p := PlanDrop(notes, dragged, overId);
    if p.Planned? {
      MovePermutes(notes, p.from, p.to);
    }
  }

  /** After a successful drop the dragged note sits where the target was, and
      the other notes keep their relative order. */
  lemma DropLandsOnTarget(notes: seq<Note>, dragged: Option<NoteId>, overId: NoteId)
    requires PlanDrop(notes, dragged, overId).Planned?
    ensures var p := PlanDrop(notes, dragged, overId);
            && p.to == FindIndex(notes, overId)
            && p.from == FindIndex(notes, dragged.value)
            && Drop(notes, dragged, overId)[p.to] == notes[p.from]
            && Drop(notes, dragged, overId)[p.to].id == dragged.value
            && RemoveAt(Drop(notes, dragged, overId), p.to) == RemoveAt(notes, p.from)
  {
    var p := PlanDrop(notes, dragged, overId);
    MoveKeepsOthersInOrder(notes, p.from, p.to);
  }

  /** `notes.filter((note) => note.pinned === pinned)`: one of the two groups
      the page renders. */
  function Group(notes: seq<Note>, pinned: bool): (r: seq<Note>)
    ensures |r| <= |notes|
  {
    if notes == [] then []
    else (if notes[0].pinned == pinned then [notes[0]] else []) + Group(notes[1..], pinned)
  }

  /** `notes.filter((note) => note.pinned)`. */
  function PinnedNotes(notes: seq<Note>): (r: seq<Note>)
    ensures forall n :: n in r <==> n in notes && n.pinned
    ensures forall n :: multiset(r)[n] == if n.pinned then multiset(notes)[n] else 0
  {
    GroupMembers(notes, true);
    Group(notes, true)
  }

  /** `notes.filter((note) => !note.pinned)`. */
  function OtherNotes(notes: seq<Note>): (r: seq<Note>)
    ensures forall n :: n in r <==> n in notes && !n.pinned
    ensures forall n :: multiset(r)[n] == if n.pinned then 0 else multiset(notes)[n]
  {
    GroupMembers(notes, false);
    Group(notes, false)
  }

  lemma GroupMembers(notes: seq<Note>, pinned: bool)
    ensures forall n :: n in Group(notes, pinned) <==> n in notes && n.pinned == pinned
    ensures forall n :: multiset(Group(notes, pinned))[n] == if n.pinned == pinned then multiset(notes)[n] else 0
  {
    forall n {
      GroupCounts(notes, pinned, n);
    }
  }

  /** A group holds exactly the notes with its flag, each as many times as in
      the list. */
  lemma GroupCounts(notes: seq<Note>, pinned: bool, n: Note)
    ensures multiset(Group(notes, pinned))[n] == if n.pinned == pinned then multiset(notes)[n] else 0
    ensures n in Group(notes, pinned) <==> n in notes && n.pinned == pinned
  {
    GroupCount(notes, pinned, n);
    assert n in Group(notes, pinned) <==> multiset(Group(notes, pinned))[n] > 0;
    assert n in notes <==> multiset(notes)[n] > 0;
  }

  lemma {:induction false} GroupCount(notes: seq<Note>, pinned: bool, n: Note)
    ensures multiset(Group(notes, pinned))[n] == if n.pinned == pinned then multiset(notes)[n] else 0
  {
    if notes != [] {
      var rest := notes[1..];
      GroupCount(rest, pinned, n);
      var head := if notes[0].pinned == pinned then [notes[0]] else [];
      assert Group(notes, pinned) == head + Group(rest, pinned);
      assert multiset(Group(notes, pinned)) == multiset(head) + multiset(Group(rest, pinned));
      assert notes == [notes[0]] + rest;
      assert multiset(notes) == multiset{notes[0]} + multiset(rest);
    }
  }

  /** Filtering distributes over concatenation: each group keeps the order
      the notes have in the list. */
  lemma {:induction false} GroupConcat(a: seq<Note>, b: seq<Note>, pinned: bool)
    ensures Group(a + b, pinned) == Group(a, pinned) + Group(b, pinned)
  {
    if a == [] {
      assert a + b == b;
    } else {
      assert (a + b)[0] == a[0];
      assert (a + b)[1..] == a[1..] + b;
      GroupConcat(a[1..], b, pinned);
      var head := if a[0].pinned == pinned then [a[0]] else [];
      assert Group(a + b, pinned) == head + Group(a[1..] + b, pinned);
      assert Group(a, pinned) == head + Group(a[1..], pinned);
    }
  }

  /** The two groups split the list: every occurrence of a note lands in
      exactly one of them. */
  lemma {:induction false} PartitionSplits(notes: seq<Note>)
    ensures |PinnedNotes(notes)| + |OtherNotes(notes)| == |notes|
    ensures multiset(PinnedNotes(notes)) + multiset(OtherNotes(notes)) == multiset(notes)
  {
    if notes != [] {
      PartitionSplits(notes[1..]);
      assert notes == [notes[0]] + notes[1..];
    }
  }

  /** Pinned notes come before all others. */
  predicate Grouped(notes: seq<Note>) {
    forall i, j :: 0 <= i < j < |notes| && notes[j].pinned ==> notes[i].pinned
  }

  /** A list is grouped exactly when it is its pinned notes followed by the
      others, which is what the page renders. */
  lemma GroupedIsPartition(notes: seq<Note>)
    ensures Grouped(notes) <==> notes == PinnedNotes(notes) + OtherNotes(notes)
  {
    if Grouped(notes) {
      GroupedSplits(notes);
    } else if notes == PinnedNotes(notes) + OtherNotes(notes) {
      SplitIsGrouped(notes);
    }
  }

  lemma {:induction false} GroupedSplits(notes: seq<Note>)
    requires Grouped(notes)
    ensures notes == Group(notes, true) + Group(notes, false)
  {
    if notes != [] {
      var rest := notes[1..];
      assert Grouped(rest) by {
        forall i, j | 0 <= i < j < |rest| && rest[j].pinned ensures rest[i].pinned {
          assert rest[j] == notes[j + 1] && rest[i] == notes[i + 1];
        }
      }
      GroupedSplits(rest);
      if !notes[0].pinned {
        forall k | 0 <= k < |rest| ensures !rest[k].pinned {
          assert rest[k] == notes[k + 1];
        }
        NoneOfGroup(rest, true);
      }
      assert notes == [notes[0]] + rest;
    }
  }

  /** A list with no note of a group has that group empty. */
  lemma {:induction false} NoneOfGroup(notes: seq<Note>, pinned: bool)
    requires forall k :: 0 <= k < |notes| ==> notes[k].pinned != pinned
    ensures Group(notes, pinned) == []
  {
    if notes != [] {
      NoneOfGroup(notes[1..], pinned);
    }
  }

  lemma SplitIsGrouped(notes: seq<Note>)
    requires notes == Group(notes, true) + Group(notes, false)
    ensures Grouped(notes)
  {
    var p, o := Group(notes, true), Group(notes, false);
    forall i, j | 0 <= i < j < |notes| && notes[j].pinned ensures notes[i].pinned {
      if j >= |p| {
        assert notes[j] == o[j - |p|];
        GroupCounts(notes, false, notes[j]);
      }
      assert notes[i] == p[i];
      GroupCounts(notes, true, notes[i]);
    }
  }

  /** Taking out a note of the other group leaves a group as it was. */
  lemma GroupRemoveAt(s: seq<Note>, i: nat, pinned: bool)
    requires i < |s| && s[i].pinned != pinned
    ensures Group(RemoveAt(s, i), pinned) == Group(s, pinned)
  {
    assert Group([s[i]], pinned) == [] by {
      assert [s[i]][1..] == [];
    }
    assert s == s[..i] + [s[i]] + s[i + 1..];
    GroupConcat(s[..i] + [s[i]], s[i + 1..], pinned);
    GroupConcat(s[..i], [s[i]], pinned);
    GroupConcat(s[..i], s[i + 1..], pinned);
  }

  /** Putting in a note of the other group leaves a group as it was. */
  lemma GroupInsertAt(s: seq<Note>, i: nat, x: Note, pinned: bool)
    requires i <= |s| && x.pinned != pinned
    ensures Group(InsertAt(s, i, x), pinned) == Group(s, pinned)
  {
    assert Group([x], pinned) == [] by {
      assert [x][1..] == [];
    }
    assert s == s[..i] + s[i..];
    GroupConcat(s[..i] + [x], s[i..], pinned);
    GroupConcat(s[..i], [x], pinned);
    GroupConcat(s[..i], s[i..], pinned);
  }

  /** A drop never changes the group the dragged note is not in. */
  lemma DropStaysInGroup(notes: seq<Note>, dragged: Option<NoteId>, overId: NoteId)
    requires PlanDrop(notes, dragged, overId).Planned?
    ensures var p := PlanDrop(notes, dragged, overId);
            Group(Drop(notes, dragged, overId), !notes[p.from].pinned) == Group(notes, !notes[p.from].pinned)
  {
    var p := PlanDrop(notes, dragged, overId);
    var g := !notes[p.from].pinned;
    GroupRemoveAt(notes, p.from, g);
    GroupInsertAt(RemoveAt(notes, p.from), p.to, notes[p.from], g);
  }

  /** On a grouped list a drop keeps the pinned flag of every position, so the
      list stays grouped and no note crosses the pinned boundary. */
  lemma DropKeepsGroupLayout(notes: seq<Note>, dragged: Option<NoteId>, overId: NoteId)
    requires Grouped(notes)
    ensures forall k :: 0 <= k < |notes| ==> Drop(notes, dragged, overId)[k].pinned == notes[k].pinned
    ensures Grouped(Drop(notes, dragged, overId))
  {
    var p := PlanDrop(notes, dragged, overId);
    if p.Planned? {
      var r := Drop(notes, dragged, overId);
      forall k | 0 <= k < |notes| ensures r[k].pinned == notes[k].pinned {
        MoveAt(notes, p.from, p.to, k);
        if k == p.to {
          if p.from < p.to {
            assert notes[p.from].pinned == notes[p.to].pinned;
          }
        } else if p.from < p.to && p.from <= k < p.to {
          // notes[k] and notes[k + 1] lie between two notes of one group
          assert notes[p.from].pinned ==> notes[k].pinned;
          assert notes[k + 1].pinned ==> notes[k].pinned;
        } else if p.to < p.from && p.to < k <= p.from {
          assert notes[k].pinned ==> notes[k - 1].pinned;
        }
      }
    }
  }
}
