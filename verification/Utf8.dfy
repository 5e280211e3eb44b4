/** UTF-8 as Rust strings hold it: well-formedness (section 4 of RFC 3629), the bytes of
  * a string, and where its characters begin.
  */
module Utf8 {
  newtype byte = b: int | 0 <= b < 0x100

  predicate Tail(b: byte) {
    0x80 <= b <= 0xBF
  }

  /** The length of the well-formed character `s` begins with; 0 if there is none. */
  function FirstLength(s: seq<byte>): (n: nat)
    ensures n <= |s|
  {
    if s == [] then 0
    else if s[0] <= 0x7F then 1
    else if 0xC2 <= s[0] <= 0xDF then
      if |s| >= 2 && Tail(s[1]) then 2 else 0
    else if 0xE0 <= s[0] <= 0xEF then
      if |s| >= 3 && Tail(s[1]) && Tail(s[2]) && (s[0] == 0xE0 ==> 0xA0 <= s[1]) && (s[0] == 0xED ==> s[1] <= 0x9F)
      then 3 else 0
    else if 0xF0 <= s[0] <= 0xF4 then
      if
        && |s| >= 4 && Tail(s[1]) && Tail(s[2]) && Tail(s[3])
        && (s[0] == 0xF0 ==> 0x90 <= s[1]) && (s[0] == 0xF4 ==> s[1] <= 0x8F)
      then 4 else 0
    else 0
  }

  predicate Valid(s: seq<byte>) {
    s == [] || (FirstLength(s) > 0 && Valid(s[FirstLength(s)..]))
  }

  /** Rust's `is_char_boundary`: the ends, and every byte that is not a continuation. */
  predicate Boundary(s: seq<byte>, k: nat) {
    k == 0 || k == |s| || (k < |s| && !Tail(s[k]))
  }

  function EncodeChar(c: char): (bytes: seq<byte>)
    ensures FirstLength(bytes) == |bytes| > 0
  {
    var n := c as int;
    if n <= 0x7F then [n as byte]
    else if n <= 0x7FF then EncodeTwo(n)
    else if n <= 0xFFFF then EncodeThree(n)
    else EncodeFour(n)
  }

  function EncodeTwo(n: nat): (bytes: seq<byte>)
    requires 0x80 <= n <= 0x7FF
    ensures FirstLength(bytes) == |bytes| == 2
  {
    [(0xC0 + n / 0x40) as byte, Sextet(n)]
  }

  function EncodeThree(n: nat): (bytes: seq<byte>)
    requires 0x800 <= n <= 0xFFFF && Scalar(n)
    ensures FirstLength(bytes) == |bytes| == 3
  {
    [(0xE0 + n / 0x1000) as byte, Sextet(n / 0x40), Sextet(n)]
  }

  function EncodeFour(n: nat): (bytes: seq<byte>)
    requires 0x1_0000 <= n && Scalar(n)
    ensures FirstLength(bytes) == |bytes| == 4
  {
    [(0xF0 + n / 0x4_0000) as byte, Sextet(n / 0x1000), Sextet(n / 0x40), Sextet(n)]
  }

  /** A Unicode scalar value. */
  predicate Scalar(n: int) {
    0 <= n < 0xD800 || 0xE000 <= n < 0x11_0000
  }

  /** A continuation byte with the lowest six bits of `n`. */
  function Sextet(n: nat): (b: byte)
    ensures Tail(b)
  {
    (0x80 + n % 0x40) as byte
  }

  function Encode(s: string): seq<byte> {
    if s == [] then [] else EncodeChar(s[0]) + Encode(s[1..])
  }

  /** A character's bytes, followed by anything, are still read as that one character. */
  lemma FirstOfEncoded(c: char, rest: seq<byte>)
    ensures FirstLength(EncodeChar(c) + rest) == |EncodeChar(c)|
  {
    var bytes := EncodeChar(c);
    assert forall i :: 0 <= i < |bytes| ==> (bytes + rest)[i] == bytes[i];
  }

  lemma {:induction false} EncodedIsValid(s: string)
    ensures Valid(Encode(s))
  {
    if s != [] {
      EncodedIsValid(s[1..]);
      FirstOfEncoded(s[0], Encode(s[1..]));
      assert Encode(s)[|EncodeChar(s[0])|..] == Encode(s[1..]);
    }
  }

  lemma {:induction false} EncodeAppends(a: string, b: string)
    ensures Encode(a + b) == Encode(a) + Encode(b)
  {
    if a == [] {
      assert a + b == b;
      assert Encode(a) + Encode(b) == Encode(b);
    } else {
      EncodeAppends(a[1..], b);
      assert (a + b)[0] == a[0] && (a + b)[1..] == a[1..] + b;
      Associates(EncodeChar(a[0]), Encode(a[1..]), Encode(b));
    }
  }

  lemma Associates(x: seq<byte>, y: seq<byte>, z: seq<byte>)
    ensures x + (y + z) == (x + y) + z
  {
  }

  /** The scalar value the bytes of one character stand for. */
  function DecodeChar(s: seq<byte>): int {
    if |s| == 1 then s[0] as int
    else if |s| == 2 then (s[0] as int - 0xC0) * 0x40 + (s[1] as int - 0x80)
    else if |s| == 3 then (s[0] as int - 0xE0) * 0x1000 + (s[1] as int - 0x80) * 0x40 + (s[2] as int - 0x80)
    else if |s| == 4 then
      (s[0] as int - 0xF0) * 0x4_0000 + (s[1] as int - 0x80) * 0x1000 + (s[2] as int - 0x80) * 0x40 +
      (s[3] as int - 0x80)
    else -1
  }

  lemma Sextets(n: nat)
    ensures n == n / 0x40 * 0x40 + n % 0x40
    ensures n / 0x40 == n / 0x1000 * 0x40 + n / 0x40 % 0x40
    ensures n / 0x1000 == n / 0x4_0000 * 0x40 + n / 0x1000 % 0x40
  {
  }

  lemma DecodesToItself(c: char)
    ensures DecodeChar(EncodeChar(c)) == c as int
  {
    Sextets(c as int);
  }

  lemma {:induction false} EncodeIsInjective(a: string, b: string)
    requires Encode(a) == Encode(b)
    ensures a == b
  {
    if a != [] && b != [] {
      FirstOfEncoded(a[0], Encode(a[1..]));
      FirstOfEncoded(b[0], Encode(b[1..]));
      var n := |EncodeChar(a[0])|;
      assert EncodeChar(a[0]) == Encode(a)[..n] == Encode(b)[..n] == EncodeChar(b[0]);
      DecodesToItself(a[0]);
      DecodesToItself(b[0]);
      assert Encode(a[1..]) == Encode(a)[n..] == Encode(b)[n..] == Encode(b[1..]);
      EncodeIsInjective(a[1..], b[1..]);
    }
  }

  lemma SextetsOf(a: nat, b: nat, c: nat, d: nat)
    requires b < 0x40 && c < 0x40 && d < 0x40
    ensures var n := 0x40 * (0x40 * (0x40 * a + b) + c) + d;
      && n / 0x4_0000 == a && n / 0x1000 == 0x40 * a + b && n / 0x40 == 0x40 * (0x40 * a + b) + c
      && n / 0x1000 % 0x40 == b && n / 0x40 % 0x40 == c && n % 0x40 == d
  {
    var two := 0x40 * a + b;
    var three := 0x40 * two + c;
    var n := 0x40 * three + d;
    LastSextet(a, b);
    LastSextet(two, c);
    LastSextet(three, d);
    DividedTwice(n);
    DividedTwice(three);
    assert n / 0x4_0000 == n / 0x1000 / 0x40 by {
      DividedThrice(n);
    }
  }

  lemma LastSextet(high: nat, low: nat)
    requires low < 0x40
    ensures (0x40 * high + low) / 0x40 == high && (0x40 * high + low) % 0x40 == low
  {
  }

  lemma DividedTwice(n: nat)
    ensures n / 0x1000 == n / 0x40 / 0x40
  {
  }

  lemma DividedThrice(n: nat)
    ensures n / 0x4_0000 == n / 0x1000 / 0x40
  {
  }

  lemma TwoAreEncoded(s: seq<byte>)
    requires FirstLength(s) == |s| == 2
    ensures Scalar(DecodeChar(s)) && EncodeChar(DecodeChar(s) as char) == s
  {
    SextetsOf(0, 0, s[0] as nat - 0xC0, s[1] as nat - 0x80);
  }

  lemma ThreeAreEncoded(s: seq<byte>)
    requires FirstLength(s) == |s| == 3
    ensures Scalar(DecodeChar(s)) && EncodeChar(DecodeChar(s) as char) == s
  {
    SextetsOf(0, s[0] as nat - 0xE0, s[1] as nat - 0x80, s[2] as nat - 0x80);
  }

  lemma FourAreEncoded(s: seq<byte>)
    requires FirstLength(s) == |s| == 4
    ensures Scalar(DecodeChar(s)) && EncodeChar(DecodeChar(s) as char) == s
  {
    SextetsOf(s[0] as nat - 0xF0, s[1] as nat - 0x80, s[2] as nat - 0x80, s[3] as nat - 0x80);
  }

  /** The bytes of one well-formed character are those of a scalar value. */
  lemma OneIsEncoded(s: seq<byte>)
    requires s != [] && FirstLength(s) == |s|
    ensures Scalar(DecodeChar(s)) && EncodeChar(DecodeChar(s) as char) == s
  {
    if |s| == 2 {
      TwoAreEncoded(s);
    } else if |s| == 3 {
      ThreeAreEncoded(s);
    } else if |s| == 4 {
      FourAreEncoded(s);
    }
  }

  lemma FirstAlone(s: seq<byte>)
    requires FirstLength(s) > 0
    ensures FirstLength(s[..FirstLength(s)]) == FirstLength(s)
  {
  }

  /** Well-formed bytes are exactly the encodings of strings. */
  lemma {:induction false} ValidIsEncoded(s: seq<byte>) returns (text: string)
    requires Valid(s)
    ensures Encode(text) == s
    decreases |s|
  {
    if s == [] {
      return "";
    }
    var n := FirstLength(s);
    FirstAlone(s);
    OneIsEncoded(s[..n]);
    var rest := ValidIsEncoded(s[n..]);
    text := [DecodeChar(s[..n]) as char] + rest;
    assert text[1..] == rest && s == s[..n] + s[n..];
  }

  // ----- character boundaries

  function LeadLength(b: byte): nat {
    if b <= 0x7F then 1 else if b <= 0xDF then 2 else if b <= 0xEF then 3 else 4
  }

  /** Within a valid string a character's first byte fixes how many continuation bytes follow. */
  lemma {:induction false} LeadsAreFollowed(s: seq<byte>, j: nat, i: nat)
    requires Valid(s) && j < |s| && !Tail(s[j])
    ensures j + LeadLength(s[j]) <= |s|
    ensures 0 < i < LeadLength(s[j]) ==> Tail(s[j + i])
    decreases |s|
  {
    var n := FirstLength(s);
    if j < n {
      assert j == 0;
    } else {
      LeadsAreFollowed(s[n..], j - n, i);
    }
  }

  /** Every continuation byte of a valid string lies inside the character begun before it. */
  lemma {:induction false} TailsHaveLeads(s: seq<byte>, k: nat) returns (j: nat)
    requires Valid(s) && k < |s| && Tail(s[k])
    ensures j < k < j + LeadLength(s[j]) && !Tail(s[j])
    decreases |s|
  {
    var n := FirstLength(s);
    if k < n {
      j := 0;
    } else {
      var rest := TailsHaveLeads(s[n..], k - n);
      j := n + rest;
    }
  }

  lemma StartsWithLead(s: seq<byte>)
    requires Valid(s) && s != []
    ensures !Tail(s[0])
  {
  }

  /** Inserting text inside a character never gives a valid string. */
  lemma InsertionPointIsBoundary(before: seq<byte>, inserted: seq<byte>, k: nat)
    requires Valid(before) && Valid(inserted) && inserted != [] && k <= |before|
    requires Valid(before[..k] + inserted + before[k..])
    ensures Boundary(before, k)
  {
    if 0 < k < |before| && Tail(before[k]) {
      var after := before[..k] + inserted + before[k..];
      var j := TailsHaveLeads(before, k);
      StartsWithLead(inserted);
      assert after[j] == before[j] && after[k] == inserted[0];
      LeadsAreFollowed(after, j, k - j);
      assert false;
    }
  }

  /** A boundary in a string's bytes is the end of the bytes of one of its prefixes. */
  lemma {:induction false} BoundaryIsCharacter(s: string, k: nat) returns (j: nat)
    requires k <= |Encode(s)| && Boundary(Encode(s), k)
    ensures j <= |s| && Encode(s[..j]) == Encode(s)[..k] && Encode(s[j..]) == Encode(s)[k..]
  {
    if k == 0 {
      j := 0;
      assert s[..0] == [] && s[0..] == s;
    } else {
      var first, others := EncodeChar(s[0]), Encode(s[1..]);
      FirstOfEncoded(s[0], others);
      PastFirst(s[0], others, k);
      var rest := BoundaryIsCharacter(s[1..], k - |first|);
      j := 1 + rest;
      assert s[..j][0] == s[0] && s[..j][1..] == s[1..][..rest];
      assert s[j..] == s[1..][rest..];
    }
  }

  lemma PastFirst(c: char, others: seq<byte>, k: nat)
    requires 0 < k <= |EncodeChar(c)| + |others| && Boundary(EncodeChar(c) + others, k)
    ensures |EncodeChar(c)| <= k && Boundary(others, k - |EncodeChar(c)|)
    ensures (EncodeChar(c) + others)[..k] == EncodeChar(c) + others[..k - |EncodeChar(c)|]
    ensures (EncodeChar(c) + others)[k..] == others[k - |EncodeChar(c)|..]
  {
    var first := EncodeChar(c);
    if k < |first| {
      assert false;
    }
    if k - |first| < |others| {
      assert (first + others)[k] == others[k - |first|];
    }
  }
}
