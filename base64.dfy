/**
 * The browser's `atob` and, as its partner, the padded encoding of RFC 4648
 * section 4. `atob` (WHATWG HTML Living Standard) runs the "forgiving-base64
 * decode" of the WHATWG Infra Standard, throws `InvalidCharacterError` where
 * that returns failure, and otherwise yields one character per decoded byte.
 */
module Base64 {
  import opened Wrappers

  type Byte = x: int | 0 <= x < 256

  /** A 6-bit group, the value one base64 character stands for. */
  type Sextet = v: int | 0 <= v < 64

  /** ASCII whitespace: TAB, LF, FF, CR and SPACE. */
  predicate IsAsciiWhitespace(c: char)
  {
    c == '\t' || c == '\n' || c == '\U{000C}' || c == '\r' || c == ' '
  }

  /** The 64 characters of RFC 4648, Table 1. */
  predicate IsAlphabetChar(c: char)
  {
    ('A' <= c <= 'Z') || ('a' <= c <= 'z') || ('0' <= c <= '9') || c == '+' || c == '/'
  }

  /** The character that encodes `v` (RFC 4648, Table 1). */
  function SextetChar(v: Sextet): (c: char)
    ensures IsAlphabetChar(c)
  {
    if v < 26 then (65 + v) as char
    else if v < 52 then (97 + v - 26) as char
    else if v < 62 then (48 + v - 52) as char
    else if v == 62 then '+'
    else '/'
  }

  /** The value an alphabet character stands for. */
  function SextetValue(c: char): Sextet
    requires IsAlphabetChar(c)
  {
    if 'A' <= c <= 'Z' then c as int - 65
    else if 'a' <= c <= 'z' then c as int - 97 + 26
    else if '0' <= c <= '9' then c as int - 48 + 52
    else if c == '+' then 62
    else 63
  }

  /** Table 1 read forwards and backwards. */
  lemma SextetRoundTrip(v: Sextet)
    ensures SextetValue(SextetChar(v)) == v
  {
  }

  /** Step 1 of the decode: drop every ASCII whitespace character. */
  function StripWhitespace(s: string): (r: string)
    ensures |r| <= |s|
    ensures forall i :: 0 <= i < |r| ==> !IsAsciiWhitespace(r[i])
    ensures (forall i :: 0 <= i < |s| ==> !IsAsciiWhitespace(s[i])) ==> r == s
    decreases |s|
  {
    if |s| == 0 then ""
    else if IsAsciiWhitespace(s[0]) then StripWhitespace(s[1..])
    else [s[0]] + StripWhitespace(s[1..])
  }

  /** Step 2: when the length is a multiple of four, drop one or two trailing `=`. */
  function RemovePadding(s: string): (r: string)
    ensures r <= s && |s| - |r| <= 2
    ensures forall i :: |r| <= i < |s| ==> s[i] == '='
    ensures |r| < |s| ==> |s| % 4 == 0
    ensures |s| % 4 == 0 && |s| >= 1 && s[|s| - 1] == '=' ==> |r| < |s|
    ensures |s| % 4 == 0 && |s| >= 2 && s[|s| - 2] == '=' && s[|s| - 1] == '=' ==> |r| == |s| - 2
  {
    if |s| % 4 == 0 && |s| >= 2 && s[|s| - 2] == '=' && s[|s| - 1] == '=' then s[..|s| - 2]
    else if |s| % 4 == 0 && |s| >= 1 && s[|s| - 1] == '=' then s[..|s| - 1]
    else s
  }

  /** The values of a string of alphabet characters. */
  function Values(d: string): (v: seq<Sextet>)
    requires forall i :: 0 <= i < |d| ==> IsAlphabetChar(d[i])
    ensures |v| == |d|
  {
    seq(|d|, i requires 0 <= i < |d| => SextetValue(d[i]))
  }

  function Byte0(v0: Sextet, v1: Sextet): Byte { v0 * 4 + v1 / 16 }
  function Byte1(v1: Sextet, v2: Sextet): Byte { (v1 % 16) * 16 + v2 / 4 }
  function Byte2(v2: Sextet, v3: Sextet): Byte { (v2 % 4) * 64 + v3 }

  /**
   * Step 5: every four values give three bytes; a final group of two or three
   * values gives one or two bytes, its leftover bits discarded.
   */
  function DecodeValues(v: seq<Sextet>): (bytes: seq<Byte>)
    requires |v| % 4 != 1
    ensures |bytes| == |v| * 3 / 4
    decreases |v|
  {
    if |v| == 0 then []
    else if |v| == 2 then [Byte0(v[0], v[1])]
    else if |v| == 3 then [Byte0(v[0], v[1]), Byte1(v[1], v[2])]
    else [Byte0(v[0], v[1]), Byte1(v[1], v[2]), Byte2(v[2], v[3])] + DecodeValues(v[4..])
  }

  /** Forgiving-base64 decode: None where the standard returns failure. */
  function ForgivingDecode(data: string): (r: Option<seq<Byte>>)
    ensures r.Some? ==> |r.value| == |RemovePadding(StripWhitespace(data))| * 3 / 4
  {
    var d := RemovePadding(StripWhitespace(data));
    if |d| % 4 == 1 then None
    else if !(forall i :: 0 <= i < |d| ==> IsAlphabetChar(d[i])) then None
    else Some(DecodeValues(Values(d)))
  }

  /** The "binary string" `atob` returns: one character per byte, its code the byte. */
  function Latin1(bytes: seq<Byte>): (s: string)
    ensures |s| == |bytes|
    ensures forall i :: 0 <= i < |bytes| ==> s[i] as int == bytes[i]
  {
    seq(|bytes|, i requires 0 <= i < |bytes| => bytes[i] as char)
  }

  /** `atob(data)`; None where it throws `InvalidCharacterError`. */
  function Atob(data: string): (r: Option<string>)
    ensures r.Some? <==> ForgivingDecode(data).Some?
    ensures r.Some? ==> forall i :: 0 <= i < |r.value| ==> r.value[i] as int < 256
    ensures r.Some? ==> |r.value| == |RemovePadding(StripWhitespace(data))| * 3 / 4
  {
    match ForgivingDecode(data)
    case None => None
    case Some(bytes) => Some(Latin1(bytes))
  }

  /** The 6-bit groups of RFC 4648 section 4, final quantum included, before padding. */
  function EncodeValues(bytes: seq<Byte>): (v: seq<Sextet>)
    ensures |v| == |bytes| / 3 * 4 + (if |bytes| % 3 == 0 then 0 else |bytes| % 3 + 1)
    decreases |bytes|
  {
    if |bytes| == 0 then []
    else if |bytes| == 1 then [bytes[0] / 4, (bytes[0] % 4) * 16]
    else if |bytes| == 2 then [bytes[0] / 4, (bytes[0] % 4) * 16 + bytes[1] / 16, (bytes[1] % 16) * 4]
    else
      [bytes[0] / 4, (bytes[0] % 4) * 16 + bytes[1] / 16, (bytes[1] % 16) * 4 + bytes[2] / 64, bytes[2] % 64]
      + EncodeValues(bytes[3..])
  }

  /** The characters of a sequence of values. */
  function Chars(v: seq<Sextet>): (s: string)
    ensures |s| == |v|
    ensures forall i :: 0 <= i < |s| ==> IsAlphabetChar(s[i])
  {
    seq(|v|, i requires 0 <= i < |v| => SextetChar(v[i]))
  }

  /** The `=` characters that fill the final quantum up to four characters. */
  function Padding(n: nat): string
  {
    if n % 3 == 1 then "==" else if n % 3 == 2 then "=" else ""
  }

  /** The padded base64 encoding of RFC 4648 section 4. */
  function Encode(bytes: seq<Byte>): (s: string)
    ensures |s| % 4 == 0
  {
    Chars(EncodeValues(bytes)) + Padding(|bytes|)
  }

  /** The values of the characters of `v` are `v`. */
  lemma ValuesOfChars(v: seq<Sextet>)
    ensures Values(Chars(v)) == v
  {
    forall i | 0 <= i < |v| ensures Values(Chars(v))[i] == v[i] {
      SextetRoundTrip(v[i]);
    }
  }

  /** Three bytes come back from the four values they are encoded as. */
  lemma TripleBack(x: Byte, y: Byte, z: Byte)
    ensures Byte0(x / 4, (x % 4) * 16 + y / 16) == x
    ensures Byte1((x % 4) * 16 + y / 16, (y % 16) * 4 + z / 64) == y
    ensures Byte2((y % 16) * 4 + z / 64, z % 64) == z
  {
    assert ((x % 4) * 16 + y / 16) / 16 == x % 4;
    assert ((x % 4) * 16 + y / 16) % 16 == y / 16;
    assert ((y % 16) * 4 + z / 64) / 4 == y % 16;
    assert ((y % 16) * 4 + z / 64) % 4 == z / 64;
  }

  /** The group decoder inverts the group encoder. */
  lemma {:induction false} DecodeEncodeValues(bytes: seq<Byte>)
    ensures DecodeValues(EncodeValues(bytes)) == bytes
    decreases |bytes|
  {
    if |bytes| == 0 {
    } else if |bytes| == 1 {
      TripleBack(bytes[0], 0, 0);
    } else if |bytes| == 2 {
      TripleBack(bytes[0], bytes[1], 0);
      assert bytes == [bytes[0], bytes[1]];
    } else {
      var v := EncodeValues(bytes);
      assert v[4..] == EncodeValues(bytes[3..]);
      TripleBack(bytes[0], bytes[1], bytes[2]);
      DecodeEncodeValues(bytes[3..]);
      assert bytes == [bytes[0], bytes[1], bytes[2]] + bytes[3..];
    }
  }

  /** Removing the padding of an encoding leaves its unpadded body. */
  lemma RemovePaddingOfEncode(bytes: seq<Byte>)
    ensures RemovePadding(Encode(bytes)) == Chars(EncodeValues(bytes))
  {
    var u := Chars(EncodeValues(bytes));
    var s := Encode(bytes);
    if |bytes| % 3 == 0 {
      assert s == u;
      if |s| >= 1 { assert IsAlphabetChar(s[|s| - 1]); }
    } else if |bytes| % 3 == 1 {
      assert s[|s| - 2..] == "==";
      assert s[..|s| - 2] == u;
    } else {
      assert s[|s| - 2] == u[|u| - 1];
      assert s[|s| - 1] == '=';
      assert s[..|s| - 1] == u;
    }
  }

  /** An encoding holds no whitespace. */
  lemma EncodingHasNoWhitespace(bytes: seq<Byte>)
    ensures StripWhitespace(Encode(bytes)) == Encode(bytes)
  {
    var u := Chars(EncodeValues(bytes));
    var s := Encode(bytes);
    forall i | 0 <= i < |s| ensures !IsAsciiWhitespace(s[i]) {
      if i < |u| { assert IsAlphabetChar(s[i]); }
    }
  }

  /** An encoding holds alphabet characters and `=` only. */
  lemma EncodingChars(bytes: seq<Byte>)
    ensures forall i :: 0 <= i < |Encode(bytes)| ==> IsAlphabetChar(Encode(bytes)[i]) || Encode(bytes)[i] == '='
  {
    var u := Chars(EncodeValues(bytes));
    var s := Encode(bytes);
    forall i | 0 <= i < |s| ensures IsAlphabetChar(s[i]) || s[i] == '=' {
      if i < |u| { assert s[i] == u[i]; }
    }
  }

  /** The unpadded body never leaves a single dangling character. */
  lemma BodyLength(bytes: seq<Byte>)
    ensures |EncodeValues(bytes)| % 4 != 1
  {
    var q, r := |bytes| / 3, |bytes| % 3;
    var k := if r == 0 then 0 else r + 1;
    assert |EncodeValues(bytes)| == q * 4 + k;
    assert (q * 4 + k) % 4 == k;
  }

  /** `atob` decodes every RFC 4648 encoding back to its bytes, one character each. */
  lemma AtobEncode(bytes: seq<Byte>)
    ensures ForgivingDecode(Encode(bytes)) == Some(bytes)
    ensures Atob(Encode(bytes)) == Some(Latin1(bytes))
  {
    var v := EncodeValues(bytes);
    EncodingHasNoWhitespace(bytes);
    RemovePaddingOfEncode(bytes);
    BodyLength(bytes);
    ValuesOfChars(v);
    DecodeEncodeValues(bytes);
  }

  lemma {:induction false} StripSplits(a: string, b: string)
    ensures StripWhitespace(a + b) == StripWhitespace(a) + StripWhitespace(b)
    decreases |a|
  {
    if |a| == 0 {
      assert a + b == b;
    } else {
      assert (a + b)[1..] == a[1..] + b;
      StripSplits(a[1..], b);
      if !IsAsciiWhitespace(a[0]) {
        assert [a[0]] + StripWhitespace(a[1..] + b) == ([a[0]] + StripWhitespace(a[1..])) + StripWhitespace(b);
      }
    }
  }

  /** Whitespace anywhere in the payload is ignored. */
  lemma AtobIgnoresWhitespace(data: string, i: nat, c: char)
    requires i <= |data| && IsAsciiWhitespace(c)
    ensures Atob(data[..i] + [c] + data[i..]) == Atob(data)
  {
    StripSplits(data[..i], [c] + data[i..]);
    StripSplits(data[..i], data[i..]);
    assert ([c] + data[i..])[1..] == data[i..];
    assert data[..i] + data[i..] == data;
    assert data[..i] + [c] + data[i..] == data[..i] + ([c] + data[i..]);
  }

  /**
   * `atob` fails exactly when, after whitespace and padding are removed, the
   * length leaves remainder 1 modulo 4 or a character outside the alphabet is left.
   */
  lemma AtobFailsExactly(data: string)
    ensures Atob(data).None? <==>
      var d := RemovePadding(StripWhitespace(data));
      |d| % 4 == 1 || exists i :: 0 <= i < |d| && !IsAlphabetChar(d[i])
  {
    var d := RemovePadding(StripWhitespace(data));
    if !(forall i :: 0 <= i < |d| ==> IsAlphabetChar(d[i])) {
      var i :| 0 <= i < |d| && !IsAlphabetChar(d[i]);
    }
  }

  /**
   * A character outside the alphabet is a failure, whatever the length, unless
   * it is an `=` with only `=` after it, which may be padding.
   */
  lemma AtobRejectsForeignChar(data: string, i: nat)
    requires forall j :: 0 <= j < |data| ==> !IsAsciiWhitespace(data[j])
    requires i < |data| && !IsAlphabetChar(data[i])
    requires data[i] != '=' || exists j :: i < j < |data| && data[j] != '='
    ensures Atob(data) == None
  {
    var d := RemovePadding(data);
    if data[i] == '=' {
      var j :| i < j < |data| && data[j] != '=';
      assert j < |d|;
    }
    assert i < |d|;
    assert d[i] == data[i];
    AtobFailsExactly(data);
  }

  /** An `=` inside a padded-length payload: `atob("QQ=A")` throws. */
  lemma AtobRejectsInnerPadding()
    ensures Atob("QQ=A") == None
  {
    assert "QQ=A"[3] != '=';
    AtobRejectsForeignChar("QQ=A", 2);
  }
}
