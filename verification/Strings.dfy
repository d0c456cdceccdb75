/** What several modules need of sequences and characters. */
module Strings {

  /** The pieces one behind the other. */
  function Flat<T>(pieces: seq<seq<T>>): seq<T> {
    if pieces == [] then [] else pieces[0] + Flat(pieces[1..])
  }

  lemma FlatCons<T>(p: seq<T>, rest: seq<seq<T>>)
    ensures Flat([p] + rest) == p + Flat(rest)
  {
    assert ([p] + rest)[1..] == rest;
  }

  lemma {:induction false} FlatSnoc<T>(pieces: seq<seq<T>>, p: seq<T>)
    ensures Flat(pieces + [p]) == Flat(pieces) + p
  {
    if pieces == [] {
      assert [p][1..] == [] && [] + [p] == [p];
    } else {
      FlatSnoc(pieces[1..], p);
      assert (pieces + [p])[1..] == pieces[1..] + [p];
    }
  }

  lemma Assoc<T>(a: seq<T>, b: seq<T>, c: seq<T>)
    ensures a + b + c == a + (b + c)
  {
  }

  /** isspace in the C locale. */
  predicate IsSpace(c: char) { c == ' ' || '\t' <= c <= '\r' }

  function SkipSpace(s: string): string {
    if s != "" && IsSpace(s[0]) then SkipSpace(s[1..]) else s
  }
}
