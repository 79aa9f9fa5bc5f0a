/** The UTF-8 byte view of a string (Rust's `str::bytes` / `as_bytes`). */
module Utf8 {
  type byte = x: int | 0 <= x < 0x100

  /** A string made of ASCII characters only. */
  predicate IsAscii(s: string)
  {
    forall j :: 0 <= j < |s| ==> s[j] as int < 0x80
  }

  /** The UTF-8 encoding of one Unicode scalar value: one byte below 0x80,
      otherwise a lead byte and continuation bytes, all at least 0x80. */
  function EncodeChar(c: char): (bs: seq<byte>)
    ensures 1 <= |bs| <= 4
    ensures c as int < 0x80 ==> bs == [c as int]
    ensures c as int >= 0x80 ==> forall j :: 0 <= j < |bs| ==> bs[j] >= 0x80
  {
    var n := c as int;
    if n < 0x80 then [n]
    else if n < 0x800 then [0xC0 + n / 0x40, 0x80 + n % 0x40]
    else if n < 0x10000 then [0xE0 + n / 0x1000, 0x80 + (n / 0x40) % 0x40, 0x80 + n % 0x40]
    else [0xF0 + n / 0x40000, 0x80 + (n / 0x1000) % 0x40, 0x80 + (n / 0x40) % 0x40, 0x80 + n % 0x40]
  }

  /** The UTF-8 encoding of a string, character by character. */
  function Bytes(s: string): (bs: seq<byte>)
    ensures |bs| >= |s|
  {
    if s == [] then [] else EncodeChar(s[0]) + Bytes(s[1..])
  }

  /** The distinct bytes above 127 in a byte sequence. */
  function HighBytes(bs: seq<byte>): set<byte>
  {
    set j | 0 <= j < |bs| && bs[j] >= 0x80 :: bs[j]
  }

  lemma {:induction false} BytesConcat(a: string, b: string)
    ensures Bytes(a + b) == Bytes(a) + Bytes(b)
  {
    if a == [] {
      assert a + b == b;
    } else {
      assert (a + b)[1..] == a[1..] + b;
      BytesConcat(a[1..], b);
    }
  }

  lemma HighBytesConcat(x: seq<byte>, y: seq<byte>)
    ensures HighBytes(x + y) == HighBytes(x) + HighBytes(y)
  {
    forall b | b in HighBytes(x + y) ensures b in HighBytes(x) + HighBytes(y) {
      var j :| 0 <= j < |x + y| && (x + y)[j] >= 0x80 && (x + y)[j] == b;
      if j >= |x| { assert y[j - |x|] == b; }
    }
    forall b | b in HighBytes(x) ensures b in HighBytes(x + y) {
      var j :| 0 <= j < |x| && x[j] >= 0x80 && x[j] == b;
      assert (x + y)[j] == b;
    }
    forall b | b in HighBytes(y) ensures b in HighBytes(x + y) {
      var j :| 0 <= j < |y| && y[j] >= 0x80 && y[j] == b;
      assert (x + y)[|x| + j] == b;
    }
  }

  /** A string's UTF-8 bytes include one above 127 exactly when the string
      has a non-ASCII character. */
  lemma {:induction false} HighBytesIffNonAscii(s: string)
    ensures HighBytes(Bytes(s)) == {} <==> IsAscii(s)
  {
    if s != [] {
      HighBytesIffNonAscii(s[1..]);
      HighBytesConcat(EncodeChar(s[0]), Bytes(s[1..]));
      var e := EncodeChar(s[0]);
      if s[0] as int >= 0x80 {
        assert e[0] in HighBytes(e);
      } else {
        assert HighBytes(e) == {};
        assert IsAscii(s) <==> IsAscii(s[1..]) by {
          if IsAscii(s[1..]) {
            forall j | 0 <= j < |s| ensures s[j] as int < 0x80 {
              if j > 0 { assert s[j] == s[1..][j - 1]; }
            }
          }
        }
      }
    }
  }

  /** The high bytes of either part of a concatenation are high bytes of the whole. */
  lemma HighBytesOfParts(x: string, y: string)
    ensures HighBytes(Bytes(x)) <= HighBytes(Bytes(x + y))
    ensures HighBytes(Bytes(y)) <= HighBytes(Bytes(x + y))
  {
    BytesConcat(x, y);
    HighBytesConcat(Bytes(x), Bytes(y));
  }

  /** The high bytes of a prefix and of a suffix are high bytes of the whole string. */
  lemma HighBytesOfSplit(s: string, j: nat)
    requires j <= |s|
    ensures HighBytes(Bytes(s[..j])) <= HighBytes(Bytes(s))
    ensures HighBytes(Bytes(s[j..])) <= HighBytes(Bytes(s))
  {
    assert s == s[..j] + s[j..];
    HighBytesOfParts(s[..j], s[j..]);
  }

  /** The high bytes of a substring are high bytes of the whole string. */
  lemma HighBytesOfSlice(s: string, i: nat, j: nat)
    requires i <= j <= |s|
    ensures HighBytes(Bytes(s[i..j])) <= HighBytes(Bytes(s))
  {
    HighBytesOfSplit(s, j);
    HighBytesOfSplit(s[..j], i);
    assert s[..j][i..] == s[i..j];
  }

  /** A non-ASCII string has some byte above 127 in its encoding. */
  lemma NonAsciiHighByte(s: string) returns (b: byte)
    requires !IsAscii(s)
    ensures b in HighBytes(Bytes(s))
  {
    HighBytesIffNonAscii(s);
    b :| b in HighBytes(Bytes(s));
  }

  /** The high bytes of an occurrence are high bytes of the text it occurs in. */
  lemma HighBytesOfOccurrence(k: string, s: string, i: nat)
    requires i + |k| <= |s| && s[i..i + |k|] == k
    ensures HighBytes(Bytes(k)) <= HighBytes(Bytes(s))
  {
    HighBytesOfSlice(s, i, i + |k|);
  }

  /** `str::len`: the length of a string in UTF-8 bytes. */
  function ByteLength(s: string): (n: nat)
    ensures n >= |s|
  {
    |Bytes(s)|
  }

  /** Extending a string by a non-empty suffix makes it longer in bytes. */
  lemma ByteLengthGrows(a: string, c: string)
    requires c != []
    ensures ByteLength(a) < ByteLength(a + c)
  {
    BytesConcat(a, c);
  }
}
