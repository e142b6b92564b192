/** Positional insertion and removal on sequences: Vec::insert / Vec::remove on the
    Rust side, and the positional item lists of native menus and menu bars. */
module Sequences {

  /** The sequence with x placed at position i: earlier elements stay, later ones move up by one. */
  function InsertAt<X>(s: seq<X>, i: nat, x: X): (r: seq<X>)
    requires i <= |s|
    ensures |r| == |s| + 1
    ensures r[i] == x
    ensures forall k :: 0 <= k < i ==> r[k] == s[k]
    ensures forall k :: i < k < |r| ==> r[k] == s[k - 1]
  {
    s[..i] + [x] + s[i..]
  }

  /** The sequence without position i: earlier elements stay, later ones move down by one. */
  function RemoveAt<X>(s: seq<X>, i: nat): (r: seq<X>)
    requires i < |s|
    ensures |r| == |s| - 1
    ensures forall k :: 0 <= k < i ==> r[k] == s[k]
    ensures forall k :: i <= k < |r| ==> r[k] == s[k + 1]
  {
    s[..i] + s[i + 1..]
  }

  /** Removing what was just inserted gives back the original sequence. */
  lemma RemoveInsertedIsIdentity<X>(s: seq<X>, i: nat, x: X)
    requires i <= |s|
    ensures RemoveAt(InsertAt(s, i, x), i) == s
  {
    var r := RemoveAt(InsertAt(s, i, x), i);
    assert |r| == |s|;
    forall k | 0 <= k < |s| ensures r[k] == s[k] {
      if k >= i {
        assert r[k] == InsertAt(s, i, x)[k + 1];
      }
    }
  }

  /** Removing the last position keeps exactly the prefix: the step of a reverse-index clear. */
  lemma RemoveLastIsPrefix<X>(s: seq<X>)
    requires |s| > 0
    ensures RemoveAt(s, |s| - 1) == s[..|s| - 1]
  {
  }

  /** A removal as a concatenation, and the sequence split around the removed element. */
  lemma RemoveAtSplit<X>(s: seq<X>, i: nat)
    requires i < |s|
    ensures RemoveAt(s, i) == s[..i] + s[i + 1..]
    ensures s == s[..i] + ([s[i]] + s[i + 1..])
  {
    assert s == s[..i] + s[i..];
    assert s[i..] == [s[i]] + s[i + 1..];
  }

  /** An insertion as a concatenation, and the sequence split around the insertion point. */
  lemma InsertAtSplit<X>(s: seq<X>, i: nat, x: X)
    requires i <= |s|
    ensures InsertAt(s, i, x) == s[..i] + ([x] + s[i..])
    ensures s == s[..i] + s[i..]
  {
  }

  /** Inserting at the end appends. */
  lemma InsertAtEnd<X>(s: seq<X>, x: X)
    ensures InsertAt(s, |s|, x) == s + [x]
  {
  }
}
