/** The fingerprint of an item: the SHA-1 digest of its decimal string,
    printed as upper-case hexadecimal, with the digits dropped and the
    letters lowered. The digest itself is an input here. */
module Trace {

  newtype byte = x: int | 0 <= x < 256

  const HexAlphabet: string := "0123456789ABCDEF"

  function HexDigit(v: int): (c: char)
    requires 0 <= v < 16
    ensures c in HexAlphabet
  {
    HexAlphabet[v]
  }

  /** The value of a hexadecimal digit as `printHexBinary` writes it. */
  function HexValue(c: char): (v: int)
    ensures 0 <= v < 16
  {
    if '0' <= c <= '9' then c as int - '0' as int
    else if 'A' <= c <= 'F' then c as int - 'A' as int + 10
    else 0
  }

  /** `DatatypeConverter.printHexBinary`: two upper-case digits per byte,
      high nibble first. */
  function PrintHexBinary(bytes: seq<byte>): (h: string)
    ensures |h| == 2 * |bytes|
    ensures forall c :: c in h ==> c in HexAlphabet
  {
    if bytes == [] then []
    else
      var b := bytes[0] as int;
      [HexDigit(b / 16), HexDigit(b % 16)] + PrintHexBinary(bytes[1..])
  }

  lemma HexDigitValue(v: int)
    requires 0 <= v < 16
    ensures HexValue(HexDigit(v)) == v
  {
    assert HexAlphabet == ['0', '1', '2', '3', '4', '5', '6', '7', '8', '9', 'A', 'B', 'C', 'D', 'E', 'F'];
  }

  /** Reading the printed digits back gives the bytes. */
  lemma {:induction false} PrintHexBinaryDecodes(bytes: seq<byte>, k: int)
    requires 0 <= k < |bytes|
    ensures var h := PrintHexBinary(bytes);
            HexValue(h[2 * k]) * 16 + HexValue(h[2 * k + 1]) == bytes[k] as int
  {
    var h := PrintHexBinary(bytes);
    var b := bytes[0] as int;
    if k == 0 {
      HexDigitValue(b / 16);
      HexDigitValue(b % 16);
      assert h[0] == HexDigit(b / 16) && h[1] == HexDigit(b % 16);
    } else {
      var t := PrintHexBinary(bytes[1..]);
      assert h == [HexDigit(b / 16), HexDigit(b % 16)] + t;
      assert h[2 * k] == t[2 * (k - 1)] && h[2 * k + 1] == t[2 * (k - 1) + 1];
      PrintHexBinaryDecodes(bytes[1..], k - 1);
    }
  }

  /** `Char.isLetter` on the characters a hexadecimal printout contains. */
  predicate IsLetter(c: char)
  {
    'A' <= c <= 'Z' || 'a' <= c <= 'z'
  }

  /** `filter { it.isLetter() }`. */
  function KeepLetters(s: string): (r: string)
    ensures |r| <= |s|
    ensures forall c :: c in r <==> c in s && IsLetter(c)
  {
    if s == [] then []
    else
      assert s == [s[0]] + s[1..];
      (if IsLetter(s[0]) then [s[0]] else []) + KeepLetters(s[1..])
  }

  /** The filter keeps each letter, in order and with its repeats. */
  lemma KeepLettersOne(c: char)
    ensures KeepLetters([c]) == if IsLetter(c) then [c] else []
  {
    assert [c][1..] == [];
  }

  /** Filtering a concatenation filters each part. */
  lemma {:induction false} KeepLettersAppend(s: string, t: string)
    ensures KeepLetters(s + t) == KeepLetters(s) + KeepLetters(t)
    decreases |s|
  {
    if s != [] {
      assert (s + t)[0] == s[0] && (s + t)[1..] == s[1..] + t;
      KeepLettersAppend(s[1..], t);
    } else {
      assert s + t == t;
    }
  }

  function LowerChar(c: char): char
  {
    if 'A' <= c <= 'Z' then (c as int + 32) as char else c
  }

  /** `toLowerCase`, on ASCII text. */
  function ToLowerCase(s: string): (r: string)
    ensures |r| == |s|
    ensures forall k :: 0 <= k < |s| ==> r[k] == LowerChar(s[k])
  {
    if s == [] then [] else [LowerChar(s[0])] + ToLowerCase(s[1..])
  }

  /** Everything `trace` does after hashing: only 'a'..'f' survive, and at
      most two characters per digest byte (40 for a 20-byte SHA-1 digest). */
  function TraceOfDigest(digest: seq<byte>): (t: string)
    ensures forall c :: c in t ==> 'a' <= c <= 'f'
    ensures |t| <= 2 * |digest|
  {
    var letters := KeepLetters(PrintHexBinary(digest));
    assert forall c :: c in letters ==> 'A' <= c <= 'F';
    var t := ToLowerCase(letters);
    assert forall k :: 0 <= k < |t| ==> 'a' <= t[k] <= 'f' by {
      forall k | 0 <= k < |t| ensures 'a' <= t[k] <= 'f' {
        assert letters[k] in letters;
      }
    }
    t
  }
}
