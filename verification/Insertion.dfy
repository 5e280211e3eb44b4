/** Recognising typed text: whether one text is another with `inserted` added at one
  * position, by comparing common prefixes and suffixes of their bytes.
  */
module Insertion {
  import opened Utf8

  /** The number of leading bytes two sequences share. */
  function CommonPrefix(a: seq<byte>, b: seq<byte>): (n: nat)
    ensures n <= |a| && n <= |b| && a[..n] == b[..n]
    ensures n < |a| && n < |b| ==> a[n] != b[n]
  {
    if a == [] || b == [] || a[0] != b[0] then 0 else 1 + CommonPrefix(a[1..], b[1..])
  }

  /** The number of trailing bytes two sequences share. */
  function CommonSuffix(a: seq<byte>, b: seq<byte>): (n: nat)
    ensures n <= |a| && n <= |b|
  {
    if a == [] || b == [] || a[|a| - 1] != b[|b| - 1] then 0
    else 1 + CommonSuffix(a[..|a| - 1], b[..|b| - 1])
  }

  /** A checked slice, None off a character boundary, compared with `text`. */
  predicate SliceIs(s: seq<byte>, from: nat, to: nat, text: seq<byte>) {
    from <= to <= |s| && Boundary(s, from) && Boundary(s, to) && s[from..to] == text
  }

  predicate IsInsertion(before: seq<byte>, after: seq<byte>, inserted: seq<byte>) {
    |after| == |before| + |inserted| &&
    var prefix, suffix := CommonPrefix(before, after), CommonSuffix(before, after);
    exists index: nat ::
      && |before| - suffix <= index <= prefix
      && Boundary(before, index)
      && SliceIs(after, index, index + |inserted|, inserted)
  }

  function Inserted(before: seq<byte>, inserted: seq<byte>, k: nat): seq<byte>
    requires k <= |before|
  {
    before[..k] + inserted + before[k..]
  }

  lemma PrefixCovers(a: seq<byte>, b: seq<byte>, k: nat)
    requires k <= |a| && k <= |b| && forall i :: 0 <= i < k ==> a[i] == b[i]
    ensures k <= CommonPrefix(a, b)
  {
    if CommonPrefix(a, b) < k {
      assert false;
    }
  }

  lemma {:induction false} SuffixIsShared(a: seq<byte>, b: seq<byte>)
    ensures a[|a| - CommonSuffix(a, b)..] == b[|b| - CommonSuffix(a, b)..]
  {
    if a != [] && b != [] && a[|a| - 1] == b[|b| - 1] {
      var c, d := a[..|a| - 1], b[..|b| - 1];
      var n := CommonSuffix(c, d);
      SuffixIsShared(c, d);
      assert a[|a| - (n + 1)..] == c[|c| - n..] + [a[|a| - 1]];
      assert b[|b| - (n + 1)..] == d[|d| - n..] + [b[|b| - 1]];
    }
  }

  lemma {:induction false} SuffixCovers(a: seq<byte>, b: seq<byte>, k: nat)
    requires k <= |a| && k <= |b| && a[|a| - k..] == b[|b| - k..]
    ensures k <= CommonSuffix(a, b)
  {
    if k > 0 {
      assert a[|a| - 1] == a[|a| - k..][k - 1] == b[|b| - k..][k - 1] == b[|b| - 1];
      var c, d := a[..|a| - 1], b[..|b| - 1];
      assert c[|c| - (k - 1)..] == a[|a| - k..][..k - 1];
      assert d[|d| - (k - 1)..] == b[|b| - k..][..k - 1];
      SuffixCovers(c, d, k - 1);
    }
  }

  lemma ShorterPrefix(a: seq<byte>, b: seq<byte>, n: nat, k: nat)
    requires k <= n <= |a| && n <= |b| && a[..n] == b[..n]
    ensures a[..k] == b[..k]
  {
    assert a[..k] == a[..n][..k] && b[..k] == b[..n][..k];
  }

  lemma ShorterSuffix(a: seq<byte>, b: seq<byte>, n: nat, k: nat)
    requires k <= n <= |a| && n <= |b| && a[|a| - n..] == b[|b| - n..]
    ensures a[|a| - k..] == b[|b| - k..]
  {
    assert a[|a| - k..] == a[|a| - n..][n - k..] && b[|b| - k..] == b[|b| - n..][n - k..];
  }

  /** What the test finds is an insertion, whatever the bytes are. */
  lemma FoundIsInsertion(before: seq<byte>, after: seq<byte>, inserted: seq<byte>) returns (k: nat)
    requires IsInsertion(before, after, inserted)
    ensures k <= |before| && Boundary(before, k) && after == Inserted(before, inserted, k)
  {
    var prefix, suffix := CommonPrefix(before, after), CommonSuffix(before, after);
    k :| |before| - suffix <= k <= prefix && Boundary(before, k) && SliceIs(after, k, k + |inserted|, inserted);
    SuffixIsShared(before, after);
    Reassembles(before, after, inserted, k, prefix, suffix);
  }

  lemma Reassembles(before: seq<byte>, after: seq<byte>, inserted: seq<byte>, k: nat, prefix: nat, suffix: nat)
    requires |after| == |before| + |inserted| && suffix <= |before| && |before| - suffix <= k <= prefix <= |before|
    requires before[..prefix] == after[..prefix]
    requires before[|before| - suffix..] == after[|after| - suffix..]
    requires after[k..k + |inserted|] == inserted
    ensures after == Inserted(before, inserted, k)
  {
    ShorterPrefix(before, after, prefix, k);
    ShorterSuffix(before, after, suffix, |before| - k);
    assert after == after[..k] + after[k..k + |inserted|] + after[k + |inserted|..];
  }

  lemma InsertionIsFoundAt(before: seq<byte>, inserted: seq<byte>, k: nat)
    requires k <= |before| && Boundary(before, k)
    requires Boundary(Inserted(before, inserted, k), k) && Boundary(Inserted(before, inserted, k), k + |inserted|)
    ensures IsInsertion(before, Inserted(before, inserted, k), inserted)
  {
    var after := Inserted(before, inserted, k);
    PrefixCovers(before, after, k);
    assert after[|after| - (|before| - k)..] == before[|before| - (|before| - k)..];
    SuffixCovers(before, after, |before| - k);
    assert SliceIs(after, k, k + |inserted|, inserted);
  }

  /** Every insertion is found, even one at a byte index that is not a character boundary:
    * between well-formed strings such an index is never needed.
    */
  lemma InsertionIsFound(before: seq<byte>, after: seq<byte>, inserted: seq<byte>, k: nat)
    requires Valid(before) && Valid(after) && Valid(inserted)
    requires k <= |before| && after == Inserted(before, inserted, k)
    ensures IsInsertion(before, after, inserted)
  {
    if inserted == [] {
      assert after == before == Inserted(before, inserted, 0);
      InsertionIsFoundAt(before, inserted, 0);
    } else {
      InsertionPointIsBoundary(before, inserted, k);
      BoundaryInside(before, inserted, k);
      InsertionIsFoundAt(before, inserted, k);
    }
  }

  lemma BoundaryInside(before: seq<byte>, inserted: seq<byte>, k: nat)
    requires k <= |before| && Boundary(before, k) && Valid(before) && Valid(inserted) && inserted != []
    ensures Boundary(Inserted(before, inserted, k), k) && Boundary(Inserted(before, inserted, k), k + |inserted|)
  {
    var after := Inserted(before, inserted, k);
    StartsWithLead(inserted);
    assert after[k] == inserted[0];
    if k < |before| {
      assert after[k + |inserted|] == before[k];
      if k == 0 {
        StartsWithLead(before);
      }
    }
  }

  /** The fast byte test is exactly: some split of `before` surrounds the inserted text. */
  lemma IsInsertionExactly(before: seq<byte>, after: seq<byte>, inserted: seq<byte>)
    requires Valid(before) && Valid(after) && Valid(inserted)
    ensures IsInsertion(before, after, inserted) <==>
      exists k: nat :: k <= |before| && after == Inserted(before, inserted, k)
  {
    if IsInsertion(before, after, inserted) {
      var k := FoundIsInsertion(before, after, inserted);
    }
    if k: nat :| k <= |before| && after == Inserted(before, inserted, k) {
      InsertionIsFound(before, after, inserted, k);
    }
  }

  /** And in characters: the test on the bytes of three strings decides whether the one
    * is the other with the third added at one character position.
    */
  lemma IsInsertionOfCharacters(before: string, after: string, inserted: string)
    ensures IsInsertion(Encode(before), Encode(after), Encode(inserted)) <==>
      exists j: nat :: j <= |before| && after == before[..j] + inserted + before[j..]
  {
    if IsInsertion(Encode(before), Encode(after), Encode(inserted)) {
      var j := FoundCharacters(before, after, inserted);
    }
    if j: nat :| j <= |before| && after == before[..j] + inserted + before[j..] {
      CharactersAreFound(before, inserted, j);
    }
  }

  lemma FoundCharacters(before: string, after: string, inserted: string) returns (j: nat)
    requires IsInsertion(Encode(before), Encode(after), Encode(inserted))
    ensures j <= |before| && after == before[..j] + inserted + before[j..]
  {
    var k := FoundIsInsertion(Encode(before), Encode(after), Encode(inserted));
    j := BoundaryIsCharacter(before, k);
    InsertedCharacters(before, inserted, j);
    EncodeIsInjective(after, before[..j] + inserted + before[j..]);
  }

  lemma PiecesAreFound(front: seq<byte>, inserted: seq<byte>, back: seq<byte>)
    requires Valid(front + back) && Valid(front + inserted + back) && Valid(inserted)
    ensures IsInsertion(front + back, front + inserted + back, inserted)
  {
    var before := front + back;
    assert before[..|front|] == front && before[|front|..] == back;
    InsertionIsFound(before, front + inserted + back, inserted, |front|);
  }

  lemma CharactersAreFound(before: string, inserted: string, j: nat)
    requires j <= |before|
    ensures IsInsertion(Encode(before), Encode(before[..j] + inserted + before[j..]), Encode(inserted))
  {
    EncodedIsValid(before);
    EncodedIsValid(before[..j] + inserted + before[j..]);
    EncodedIsValid(inserted);
    InsertedCharacters(before, inserted, j);
    SplitCharacters(before, j);
    PiecesAreFound(Encode(before[..j]), Encode(inserted), Encode(before[j..]));
  }

  lemma SplitCharacters(s: string, j: nat)
    requires j <= |s|
    ensures Encode(s) == Encode(s[..j]) + Encode(s[j..])
  {
    SplitAt(s, j);
    EncodeAppends(s[..j], s[j..]);
  }

  lemma SplitAt(s: string, j: nat)
    requires j <= |s|
    ensures s[..j] + s[j..] == s
  {
  }

  lemma InsertedCharacters(before: string, inserted: string, j: nat)
    requires j <= |before|
    ensures Encode(before[..j] + inserted + before[j..]) == Encode(before[..j]) + Encode(inserted) + Encode(before[j..])
  {
    EncodeAppends(before[..j] + inserted, before[j..]);
    EncodeAppends(before[..j], inserted);
  }
}
