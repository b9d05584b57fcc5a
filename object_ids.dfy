/**
 * BSON ObjectIds: twelve bytes, written out by `str(oid)` as 24 lower-case
 * hexadecimal digits and read back by `ObjectId(s)`.
 */
module ObjectIds {
  import opened Wrappers

  type Byte = b: int | 0 <= b < 256

  /** The store's native identifier type. */
  type ObjectId = s: seq<Byte> | |s| == 12 witness [0, 0, 0, 0, 0, 0, 0, 0, 0, 0, 0, 0]

  predicate IsHexDigit(c: char) {
    '0' <= c <= '9' || 'a' <= c <= 'f' || 'A' <= c <= 'F'
  }

  function HexValue(c: char): (v: int)
    requires IsHexDigit(c)
    ensures 0 <= v < 16
  {
    if '0' <= c <= '9' then c as int - '0' as int
    else if 'a' <= c <= 'f' then c as int - 'a' as int + 10
    else c as int - 'A' as int + 10
  }

  /** The lower-case digit for `v`; `HexValue` reads it back. */
  function HexDigit(v: int): (c: char)
    requires 0 <= v < 16
    ensures IsHexDigit(c) && HexValue(c) == v
    ensures !('A' <= c <= 'F')
  {
    if v < 10 then ('0' as int + v) as char else ('a' as int + v - 10) as char
  }

  /** Lower-cases the letters `A`..`F` and leaves every other character alone. */
  function LowerHex(c: char): char {
    if 'A' <= c <= 'F' then (c as int - 'A' as int + 'a' as int) as char else c
  }

  function LowerHexAll(s: string): (r: string)
    ensures |r| == |s| && forall i :: 0 <= i < |s| ==> r[i] == LowerHex(s[i])
  {
    if s == [] then [] else [LowerHex(s[0])] + LowerHexAll(s[1..])
  }

  lemma LowerHexAllKeepsLower(s: string)
    ensures (forall i :: 0 <= i < |s| ==> !('A' <= s[i] <= 'F')) ==> LowerHexAll(s) == s
  {
  }

  /** Two digits per byte, high nibble first, as `binascii.hexlify` writes them. */
  function Hexlify(bytes: seq<Byte>): (s: string)
    ensures |s| == 2 * |bytes|
  {
    if bytes == [] then []
    else [HexDigit(bytes[0] / 16), HexDigit(bytes[0] % 16)] + Hexlify(bytes[1..])
  }

  /** Reads pairs of hexadecimal digits in either case; `None` at the first non-digit. */
  function Unhexlify(s: string): (r: Option<seq<Byte>>)
    requires |s| % 2 == 0
    ensures r.Some? ==> 2 * |r.value| == |s|
  {
    if s == [] then Some([])
    else if !IsHexDigit(s[0]) || !IsHexDigit(s[1]) then None
    else match Unhexlify(s[2..])
      case None => None
      case Some(rest) => Some([HexValue(s[0]) * 16 + HexValue(s[1])] + rest)
  }

  /** `str(oid)`. */
  function Str(oid: ObjectId): string {
    Hexlify(oid)
  }

  /**
   * `ObjectId(s)` for a string `s`: accepted exactly when it is 24
   * hexadecimal digits; `None` stands for the exception the library raises.
   */
  function Parse(s: string): Option<ObjectId> {
    if |s| != 24 then None
    else match Unhexlify(s)
      case None => None
      case Some(bytes) => Some(bytes)
  }

  lemma {:induction false} UnhexlifyHexlify(bytes: seq<Byte>)
    ensures Unhexlify(Hexlify(bytes)) == Some(bytes)
  {
    if bytes != [] {
      var s := Hexlify(bytes);
      assert s[2..] == Hexlify(bytes[1..]);
      UnhexlifyHexlify(bytes[1..]);
      assert HexValue(s[0]) * 16 + HexValue(s[1]) == bytes[0];
      assert [bytes[0]] + bytes[1..] == bytes;
    }
  }

  lemma {:induction false} HexlifyUnhexlify(s: string, bytes: seq<Byte>)
    requires |s| % 2 == 0
    requires Unhexlify(s) == Some(bytes)
    ensures Hexlify(bytes) == LowerHexAll(s)
  {
    if s != [] {
      HexlifyUnhexlify(s[2..], bytes[1..]);
      var b := bytes[0];
      assert b == HexValue(s[0]) * 16 + HexValue(s[1]);
      assert HexDigit(b / 16) == LowerHex(s[0]);
      assert HexDigit(b % 16) == LowerHex(s[1]);
      assert LowerHexAll(s) == [LowerHex(s[0]), LowerHex(s[1])] + LowerHexAll(s[2..]);
    }
  }

  lemma {:induction false} UnhexlifyAccepts(s: string)
    requires |s| % 2 == 0
    ensures Unhexlify(s).Some? <==> forall i :: 0 <= i < |s| ==> IsHexDigit(s[i])
  {
    if s != [] {
      UnhexlifyAccepts(s[2..]);
      assert forall i :: 2 <= i < |s| ==> s[i] == s[2..][i - 2];
    }
  }

  /** Every identifier survives being written out and parsed back. */
  lemma ParseStr(oid: ObjectId)
    ensures Parse(Str(oid)) == Some(oid)
  {
    UnhexlifyHexlify(oid);
  }

  /** What `Parse` accepts is written back as the same digits, lower-cased. */
  lemma StrParse(s: string, oid: ObjectId)
    requires Parse(s) == Some(oid)
    ensures Str(oid) == LowerHexAll(s)
  {
    HexlifyUnhexlify(s, oid);
  }

  /** `ObjectId(s)` succeeds exactly on the strings of 24 hexadecimal digits. */
  lemma ParseAccepts(s: string)
    ensures Parse(s).Some? <==> |s| == 24 && forall i :: 0 <= i < |s| ==> IsHexDigit(s[i])
  {
    if |s| == 24 {
      UnhexlifyAccepts(s);
    }
  }

  /** Distinct identifiers have distinct string forms. */
  lemma StrInjective(a: ObjectId, b: ObjectId)
    requires Str(a) == Str(b)
    ensures a == b
  {
    ParseStr(a);
    ParseStr(b);
  }
}
