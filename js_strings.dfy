/**
 * The JavaScript string built-ins that the fingerprint and descriptor code
 * relies on, for the argument ranges it uses them with.
 */
module JsStrings {
  import opened Hex

  function Min(a: int, b: int): (m: int) {
    if a <= b then a else b
  }

  /** `n.toString(16)` for a non-negative integer: shortest lowercase digit string. */
  function ToHexString(n: nat): (r: string)
    ensures 1 <= |r|
    ensures IsHexString(r)
    ensures HexNumber(r) == n
    ensures |r| > 1 ==> r[0] != '0'
    ensures n < 16 <==> |r| == 1
    decreases n
  {
    if n < 16 then [HexDigit(n)]
    else
      var r := ToHexString(n / 16) + [HexDigit(n % 16)];
      assert r[..|r| - 1] == ToHexString(n / 16);
      HexValueOfDigit(n % 16);
      r
  }

  /** `s.padStart(targetLength, padChar)` with a one-character pad string. */
  function PadStart(s: string, targetLength: nat, padChar: char): (r: string)
    ensures |r| == if |s| >= targetLength then |s| else targetLength
    ensures r[|r| - |s|..] == s
    ensures forall i :: 0 <= i < |r| - |s| ==> r[i] == padChar
  {
    if |s| >= targetLength then s else seq(targetLength - |s|, _ => padChar) + s
  }

  /** `s.substr(start, length)` for non-negative arguments. */
  function Substr(s: string, start: nat, length: nat): (r: string)
    ensures |r| == if start >= |s| then 0 else Min(length, |s| - start)
    ensures forall i :: 0 <= i < |r| ==> r[i] == s[start + i]
  {
    if start >= |s| then [] else s[start..start + Min(length, |s| - start)]
  }

  /** `s.substr(start)`: everything from `start` to the end. */
  function SubstrFrom(s: string, start: nat): (r: string)
    ensures |r| == if start >= |s| then 0 else |s| - start
    ensures start <= |s| ==> s[..start] + r == s
  {
    if start >= |s| then [] else s[start..]
  }

  /** `parts.join('')`: the parts concatenated in order. */
  function Join(parts: seq<string>): (r: string)
    ensures |parts| == 0 ==> r == ""
  {
    if parts == [] then "" else parts[0] + Join(parts[1..])
  }

  /** Every part has two characters, as every rendered byte does. */
  predicate AllPairs(parts: seq<string>) {
    forall i :: 0 <= i < |parts| ==> |parts[i]| == 2
  }

  /** Joining `n` two-character parts gives `2n` characters. */
  lemma {:induction false} JoinPairsLength(parts: seq<string>)
    requires AllPairs(parts)
    ensures |Join(parts)| == 2 * |parts|
  {
    if parts != [] {
      JoinPairsLength(parts[1..]);
    }
  }

  /** Joining `n` two-character parts gives `2n` characters, part `i` at `2i` and `2i + 1`. */
  lemma {:induction false} JoinPairsAt(parts: seq<string>, i: nat)
    requires AllPairs(parts)
    requires i < |parts|
    ensures |Join(parts)| == 2 * |parts|
    ensures Join(parts)[2 * i..2 * i + 2] == parts[i]
  {
    var rest := Join(parts[1..]);
    assert Join(parts) == parts[0] + rest;
    if i > 0 {
      JoinPairsAt(parts[1..], i - 1);
      assert (parts[0] + rest)[2 * i..2 * i + 2] == rest[2 * (i - 1)..2 * (i - 1) + 2];
    } else {
      JoinPairsLength(parts[1..]);
    }
  }

  /** The first `n` two-character parts joined are the first `2n` characters of the whole join. */
  lemma {:induction false} JoinPairsPrefix(parts: seq<string>, n: nat)
    requires AllPairs(parts)
    requires n <= |parts|
    ensures 2 * n <= |Join(parts)|
    ensures Join(parts)[..2 * n] == Join(parts[..n])
  {
    if n > 0 {
      var rest := Join(parts[1..]);
      assert Join(parts) == parts[0] + rest;
      JoinPairsPrefix(parts[1..], n - 1);
      assert parts[..n][1..] == parts[1..][..n - 1];
      assert Join(parts[..n]) == parts[0] + Join(parts[1..][..n - 1]);
      assert (parts[0] + rest)[..2 * n] == parts[0] + rest[..2 * (n - 1)];
    }
  }
}
