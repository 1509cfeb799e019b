/** The text edits a rule's `fix` callback hands to ESLint, and the way the
    host splices the edits of one report into the source once they are in
    order and do not overlap. */
module Fixer {

  /** `fixer.remove(node)` removes the node's range; `fixer.insertTextAfterRange
      ([a, b], text)` inserts `text` at `b`. */
  datatype Edit = Remove(start: nat, end: nat) | Insert(pos: nat, text: string)

  function Start(e: Edit): nat {
    match e
    case Remove(start, _) => start
    case Insert(pos, _) => pos
  }

  function End(e: Edit): nat {
    match e
    case Remove(_, end) => end
    case Insert(pos, _) => pos
  }

  function Text(e: Edit): string {
    match e
    case Remove(_, _) => ""
    case Insert(_, text) => text
  }

  /** Every edit starts at or after the end of the one before it (and at or
      after `from`), and all of them lie within a text of length `n`. */
  predicate Ordered(edits: seq<Edit>, from: nat, n: nat)
    ensures Ordered(edits, from, n) ==> from <= n
    decreases |edits|
  {
    if edits == [] then from <= n
    else from <= Start(edits[0]) <= End(edits[0]) && Ordered(edits[1..], End(edits[0]), n)
  }

  /** The text from `from` on, with the edits applied. */
  function Apply(src: string, edits: seq<Edit>, from: nat): string
    requires Ordered(edits, from, |src|)
    decreases |edits|
  {
    if edits == [] then src[from..]
    else src[from..Start(edits[0])] + Text(edits[0]) + Apply(src, edits[1..], End(edits[0]))
  }

  function ApplyEdits(src: string, edits: seq<Edit>): string
    requires Ordered(edits, 0, |src|)
  {
    Apply(src, edits, 0)
  }

  lemma ApplyOneFrom(src: string, e: Edit, from: nat)
    requires from <= Start(e) <= End(e) <= |src|
    ensures Ordered([e], from, |src|)
    ensures Apply(src, [e], from) == src[from..Start(e)] + Text(e) + src[End(e)..]
  {
    assert [e][1..] == [];
  }

  lemma ApplyOne(src: string, e: Edit)
    requires Start(e) <= End(e) <= |src|
    ensures Ordered([e], 0, |src|)
    ensures ApplyEdits(src, [e]) == src[..Start(e)] + Text(e) + src[End(e)..]
  {
    ApplyOneFrom(src, e, 0);
    assert src[0..Start(e)] == src[..Start(e)];
  }

  lemma ApplyTwo(src: string, e1: Edit, e2: Edit)
    requires Start(e1) <= End(e1) <= Start(e2) <= End(e2) <= |src|
    ensures Ordered([e1, e2], 0, |src|)
    ensures ApplyEdits(src, [e1, e2])
         == src[..Start(e1)] + Text(e1) + (src[End(e1)..Start(e2)] + Text(e2) + src[End(e2)..])
  {
    ApplyOneFrom(src, e2, End(e1));
    assert [e1, e2][1..] == [e2];
    assert Ordered([e1, e2], 0, |src|);
    calc {
      ApplyEdits(src, [e1, e2]);
      src[0..Start(e1)] + Text(e1) + Apply(src, [e2], End(e1));
      { assert src[0..Start(e1)] == src[..Start(e1)]; }
      src[..Start(e1)] + Text(e1) + (src[End(e1)..Start(e2)] + Text(e2) + src[End(e2)..]);
    }
  }

  /** A removal followed by an insertion further right. */
  lemma ApplyRemoveThenInsert(src: string, start: nat, end: nat, at: nat, text: string)
    requires start <= end <= at <= |src|
    ensures Ordered([Remove(start, end), Insert(at, text)], 0, |src|)
    ensures ApplyEdits(src, [Remove(start, end), Insert(at, text)])
         == src[..start] + src[end..at] + text + src[at..]
  {
    ApplyTwo(src, Remove(start, end), Insert(at, text));
    Regroup(src[..start], src[end..at], text, src[at..]);
  }

  /** Re-associates a concatenation so that the two-edit formula above reads
      as the before/between/text/after form callers use. */
  lemma Regroup(before: string, between: string, text: string, after: string)
    ensures before + "" + (between + text + after) == before + between + text + after
  {
    assert before + "" == before;
  }

  /** A lone removal. */
  lemma ApplyRemove(src: string, start: nat, end: nat)
    requires start <= end <= |src|
    ensures Ordered([Remove(start, end)], 0, |src|)
    ensures ApplyEdits(src, [Remove(start, end)]) == src[..start] + src[end..]
  {
    ApplyOne(src, Remove(start, end));
    assert src[..start] + "" == src[..start];
  }
}
