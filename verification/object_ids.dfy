/**
 * Object identities: fixed-width raw digests, and their 40-character hexadecimal text
 * form used by the ref database.  `ValueOf` stands for `ObjectId.valueOf`, which is
 * not part of this model: here a string is an id exactly when it is 40 hexadecimal
 * digits (either case), read two digits per byte.
 */
module ObjectIds {
  import opened Wrappers
  import opened Bytes

  /** Width of a raw identity in bytes. */
  const NUM_BYTES: nat := 20

  type ObjectId = s: seq<byte> | |s| == NUM_BYTES witness seq(NUM_BYTES, _ => 0 as byte)

  predicate IsHexDigit(c: char) {
    ('0' <= c <= '9') || ('a' <= c <= 'f') || ('A' <= c <= 'F')
  }

  predicate IsLowerHexDigit(c: char) {
    ('0' <= c <= '9') || ('a' <= c <= 'f')
  }

  function DigitValue(c: char): (v: nat)
    requires IsHexDigit(c)
    ensures v < 16
  {
    if '0' <= c <= '9' then c as int - '0' as int
    else if 'a' <= c <= 'f' then c as int - 'a' as int + 10
    else c as int - 'A' as int + 10
  }

  function HexDigit(v: nat): (c: char)
    requires v < 16
    ensures IsLowerHexDigit(c) && IsHexDigit(c) && DigitValue(c) == v
  {
    if v < 10 then ('0' as int + v) as char else ('a' as int + v - 10) as char
  }

  predicate AllHex(s: string) {
    forall i :: 0 <= i < |s| ==> IsHexDigit(s[i])
  }

  /** The text `ValueOf` accepts: exactly two hex digits per byte of an id. */
  predicate IsValidId(s: string) {
    |s| == 2 * NUM_BYTES && AllHex(s)
  }

  /** Reads a string of hex digit pairs, high nibble first. */
  function ParseHex(s: string): (r: seq<byte>)
    requires |s| % 2 == 0 && AllHex(s)
    ensures |r| == |s| / 2
    decreases |s|
  {
    if s == [] then []
    else [(DigitValue(s[0]) * 16 + DigitValue(s[1])) as byte] + ParseHex(s[2..])
  }

  /** Prints bytes as lower-case hex, high nibble first. */
  function ToHex(b: seq<byte>): (s: string)
    ensures |s| == 2 * |b|
    ensures forall i :: 0 <= i < |s| ==> IsLowerHexDigit(s[i])
  {
    if b == [] then []
    else [HexDigit(b[0] as int / 16), HexDigit(b[0] as int % 16)] + ToHex(b[1..])
  }

  /** `ObjectId.valueOf`: the id the text denotes, or None where the source throws. */
  function ValueOf(s: string): (r: Option<ObjectId>)
    ensures r.Some? <==> IsValidId(s)
  {
    if IsValidId(s) then Some(ParseHex(s)) else None
  }

  lemma {:induction false} ParseToHex(b: seq<byte>)
    ensures AllHex(ToHex(b)) && ParseHex(ToHex(b)) == b
  {
    if b != [] {
      ParseToHex(b[1..]);
      var s := ToHex(b);
      assert s[2..] == ToHex(b[1..]);
    }
  }

  lemma {:induction false} ToHexParse(s: string)
    requires |s| % 2 == 0 && AllHex(s) && forall i :: 0 <= i < |s| ==> IsLowerHexDigit(s[i])
    ensures ToHex(ParseHex(s)) == s
  {
    if s != [] {
      ToHexParse(s[2..]);
      var b := ParseHex(s);
      assert b[1..] == ParseHex(s[2..]);
      HexPair(s[0], s[1]);
      assert ToHex(b) == [s[0], s[1]] + ToHex(b[1..]);
      assert s == [s[0], s[1]] + s[2..];
    }
  }

  /** A byte read from two lower-case digits prints back as those two digits. */
  lemma HexPair(c0: char, c1: char)
    requires IsLowerHexDigit(c0) && IsLowerHexDigit(c1)
    ensures var v := (DigitValue(c0) * 16 + DigitValue(c1)) as byte;
            HexDigit(v as int / 16) == c0 && HexDigit(v as int % 16) == c1
  {
    var hi, lo := DigitValue(c0), DigitValue(c1);
    assert (hi * 16 + lo) / 16 == hi && (hi * 16 + lo) % 16 == lo;
  }

  /** Printing an id and reading it back gives the id: the hex form is faithful. */
  lemma ValueOfToHex(id: ObjectId)
    ensures ValueOf(ToHex(id)) == Some(id)
  {
    ParseToHex(id);
  }

  /** Lower-case hex text is the canonical form: reading it and printing it back gives the text. */
  lemma ToHexValueOf(s: string)
    requires IsValidId(s) && forall i :: 0 <= i < |s| ==> IsLowerHexDigit(s[i])
    ensures ValueOf(s).Some? && ToHex(ValueOf(s).value) == s
  {
    ToHexParse(s);
  }
}
