/** Bytes on the pipe between the two viewer processes: little-endian words, and the
  * reading end of the pipe.
  */
module Wire {
  import opened Options
  import opened Utf8

  function Power256(n: nat): (power: nat)
    ensures power > 0
  {
    if n == 0 then 1 else 0x100 * Power256(n - 1)
  }

  function ToLe(value: nat, width: nat): (bytes: seq<byte>)
    ensures |bytes| == width
  {
    if width == 0 then [] else [(value % 0x100) as byte] + ToLe(value / 0x100, width - 1)
  }

  function FromLe(bytes: seq<byte>): nat {
    if bytes == [] then 0 else bytes[0] as nat + 0x100 * FromLe(bytes[1..])
  }

  /** The least byte comes first. */
  lemma {:induction false} LeastByteFirst(value: nat, width: nat, k: nat)
    requires k < width
    ensures ToLe(value, width)[k] as nat == value / Power256(k) % 0x100
  {
    if k > 0 {
      LeastByteFirst(value / 0x100, width - 1, k - 1);
      DivideTwice(value, Power256(k - 1));
    }
  }

  lemma DivideTwice(value: nat, d: nat)
    requires d > 0
    ensures 0x100 * d > 0 && value / 0x100 / d == value / (0x100 * d)
  {
    var q := value / 0x100 / d;
    assert q * d <= value / 0x100 < q * d + d;
    assert q * (0x100 * d) <= value < (q + 1) * (0x100 * d);
    QuotientIs(value, 0x100 * d, q);
  }

  lemma QuotientIs(value: nat, d: nat, q: nat)
    requires d > 0 && q * d <= value < (q + 1) * d
    ensures value / d == q
  {
    var p := value / d;
    assert p * d <= value < p * d + d;
    if p < q {
      Times(p + 1, q, d);
    } else if q < p {
      Times(q + 1, p, d);
    }
  }

  lemma Times(a: nat, b: nat, c: nat)
    requires a <= b
    ensures a * c <= b * c
  {
  }

  lemma {:induction false} LeReadsBack(value: nat, width: nat)
    requires value < Power256(width)
    ensures FromLe(ToLe(value, width)) == value
  {
    if width > 0 {
      LeReadsBack(value / 0x100, width - 1);
    }
  }

  lemma {:induction false} LeWritesBack(bytes: seq<byte>)
    ensures FromLe(bytes) < Power256(|bytes|)
    ensures ToLe(FromLe(bytes), |bytes|) == bytes
  {
    if bytes != [] {
      LeWritesBack(bytes[1..]);
      assert FromLe(bytes) % 0x100 == bytes[0] as nat && FromLe(bytes) / 0x100 == FromLe(bytes[1..]);
    }
  }

  const U32: nat := 0x1_0000_0000
  const U64: nat := 0x1_0000_0000_0000_0000

  lemma WordSizes()
    ensures Power256(4) == U32 && Power256(8) == U64
  {
    assert Power256(2) == 0x1_0000;
    assert Power256(4) == U32;
    assert Power256(6) == 0x1_0000_0000_0000;
  }

  /** The reading end: what has not been read yet. */
  class Pipe {
    var unread: seq<byte>

    constructor (unread: seq<byte>)
      ensures this.unread == unread
    {
      this.unread := unread;
    }

    /** Exactly `count` bytes, or None at the end of the stream, which eats the rest. */
    method ReadExact(count: nat) returns (bytes: Option<seq<byte>>)
      modifies this
      ensures count <= |old(unread)| ==> bytes == Some(old(unread)[..count]) && unread == old(unread)[count..]
      ensures |old(unread)| < count ==> bytes == None && unread == []
    {
      if count <= |unread| {
        bytes := Some(unread[..count]);
        unread := unread[count..];
      } else {
        bytes := None;
        unread := [];
      }
    }
  }
}
