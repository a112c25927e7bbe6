/**
 * The descriptor key `[<fingerprint><derivation without its first character>]<xpub>`,
 * the key-origin form of a key expression (BIP 380, "Key Expressions").
 */
module Descriptor {
  import opened Wrappers
  import opened JsStrings

  /** The fixed derivation path requested from the device (the BIP 48 multisig path). */
  const Derivation: string := "M/48'/0'/0'/2'"

  /**
   * The template literal `[${fgp}${derivation.substr(1)}]${xpub}`. The first
   * character of the path is dropped whatever it is, and nothing is validated.
   */
  function DescriptorKey(fgp: string, derivation: string, xpub: string): (r: string)
    ensures |r| == |fgp| + |xpub| + (if |derivation| == 0 then 2 else |derivation| + 1)
    ensures r[0] == '['
  {
    "[" + fgp + SubstrFrom(derivation, 1) + "]" + xpub
  }

  /**
   * Where each part sits in the descriptor key: `[`, the fingerprint, the path
   * from its second character, `]`, then the xpub as the suffix.
   */
  lemma DescriptorKeyLayout(fgp: string, derivation: string, xpub: string)
    ensures var r := DescriptorKey(fgp, derivation, xpub);
      && |r| == |fgp| + |xpub| + (if |derivation| == 0 then 2 else |derivation| + 1)
      && r[0] == '['
      && r[1..1 + |fgp|] == fgp
      && (|derivation| > 0 ==> r[1 + |fgp|..|fgp| + |derivation|] == derivation[1..])
      && r[|r| - |xpub| - 1] == ']'
      && r[|r| - |xpub|..] == xpub
  {
    var r := DescriptorKey(fgp, derivation, xpub);
    var rest := SubstrFrom(derivation, 1);
    assert r == "[" + fgp + rest + "]" + xpub;
    assert r[1..1 + |fgp|] == fgp;
    assert r[1 + |fgp|..1 + |fgp| + |rest|] == rest;
    assert r[|r| - |xpub|..] == xpub;
  }

  /** The position of the first `c` in `s`, if any. */
  function FirstIndexOf(s: string, c: char): (r: Option<nat>)
    ensures r.None? <==> c !in s
    ensures r.Some? ==> r.value < |s| && s[r.value] == c && c !in s[..r.value]
  {
    if s == [] then None
    else if s[0] == c then Some(0)
    else
      match FirstIndexOf(s[1..], c)
      case None => None
      case Some(j) =>
        assert s[..j + 1] == [s[0]] + s[1..][..j];
        Some(j + 1)
  }

  /** In `a + [c] + b` with no `c` in `a`, the first `c` is the one right after `a`. */
  lemma {:induction false} FirstIndexOfAfter(a: string, c: char, b: string)
    requires c !in a
    ensures FirstIndexOf(a + [c] + b, c) == Some(|a|)
  {
    if a != [] {
      FirstIndexOfAfter(a[1..], c, b);
      assert (a + [c] + b)[1..] == a[1..] + [c] + b;
    }
  }

  /** A key expression split into its origin (between the brackets) and the key after them. */
  datatype KeyExpression = KeyExpression(origin: string, key: string)

  /** Reads `[origin]key` back, splitting at the first `]`. */
  function ParseKeyExpression(s: string): (r: Option<KeyExpression>)
    ensures r.None? <==> (|s| == 0 || s[0] != '[' || ']' !in s[1..])
    ensures r.Some? ==> s == "[" + r.value.origin + "]" + r.value.key && ']' !in r.value.origin
  {
    if |s| == 0 || s[0] != '[' then None
    else
      match FirstIndexOf(s[1..], ']')
      case None => None
      case Some(j) =>
        var k := KeyExpression(s[1..1 + j], s[2 + j..]);
        assert s[1..][..j] == k.origin;
        assert s == "[" + k.origin + "]" + k.key;
        Some(k)
  }

  /** `[origin]key` with no `]` in the origin splits back into exactly that origin and key. */
  lemma KeyOriginSplits(origin: string, key: string)
    requires ']' !in origin
    ensures FirstIndexOf("[" + origin + "]" + key, ']') == Some(1 + |origin|)
    ensures ParseKeyExpression("[" + origin + "]" + key) == Some(KeyExpression(origin, key))
  {
    var s := "[" + origin + "]" + key;
    assert s == ("[" + origin) + "]" + key;
    FirstIndexOfAfter("[" + origin, ']', key);
    assert s[1..] == origin + "]" + key;
    FirstIndexOfAfter(origin, ']', key);
    assert s[1..1 + |origin|] == origin;
    assert s[2 + |origin|..] == key;
  }

  /**
   * When neither the fingerprint nor the kept part of the path contains `]`, the first `]` of the
   * descriptor key closes the origin, and splitting there gives back the
   * fingerprint followed by the path remainder, and the xpub unchanged.
   */
  lemma DescriptorKeySplits(fgp: string, derivation: string, xpub: string)
    requires ']' !in fgp && ']' !in SubstrFrom(derivation, 1)
    ensures FirstIndexOf(DescriptorKey(fgp, derivation, xpub), ']')
      == Some(if |derivation| == 0 then 1 + |fgp| else |fgp| + |derivation|)
    ensures ParseKeyExpression(DescriptorKey(fgp, derivation, xpub))
      == Some(KeyExpression(fgp + SubstrFrom(derivation, 1), xpub))
  {
    var rest := SubstrFrom(derivation, 1);
    assert |rest| == if |derivation| == 0 then 0 else |derivation| - 1;
    var origin := fgp + rest;
    assert 1 + |origin| == if |derivation| == 0 then 1 + |fgp| else |fgp| + |derivation|;
    var r := DescriptorKey(fgp, derivation, xpub);
    assert r == "[" + origin + "]" + xpub && ']' !in origin;
    KeyOriginSplits(origin, xpub);
  }

  /**
   * With fingerprints of one length and kept path parts free of `]`, equal descriptor keys
   * come only from equal fingerprints, equal path remainders and equal xpubs.
   */
  lemma DescriptorKeyInjective(fgp1: string, derivation1: string, xpub1: string,
                               fgp2: string, derivation2: string, xpub2: string)
    requires |fgp1| == |fgp2|
    requires ']' !in fgp1 && ']' !in SubstrFrom(derivation1, 1)
    requires ']' !in fgp2 && ']' !in SubstrFrom(derivation2, 1)
    requires DescriptorKey(fgp1, derivation1, xpub1) == DescriptorKey(fgp2, derivation2, xpub2)
    ensures fgp1 == fgp2 && xpub1 == xpub2
    ensures SubstrFrom(derivation1, 1) == SubstrFrom(derivation2, 1)
  {
    DescriptorKeySplits(fgp1, derivation1, xpub1);
    DescriptorKeySplits(fgp2, derivation2, xpub2);
    var o1, o2 := fgp1 + SubstrFrom(derivation1, 1), fgp2 + SubstrFrom(derivation2, 1);
    assert o1 == o2;
    assert o1[..|fgp1|] == fgp1 && o2[..|fgp2|] == fgp2;
    assert o1[|fgp1|..] == SubstrFrom(derivation1, 1) && o2[|fgp2|..] == SubstrFrom(derivation2, 1);
  }

  /** Only the first character of the path is dropped, whichever character it is (one Unicode scalar value). */
  lemma PathRootIgnored(fgp: string, root: char, rest: string, xpub: string)
    ensures DescriptorKey(fgp, [root] + rest, xpub) == "[" + fgp + rest + "]" + xpub
  {
    assert ([root] + rest)[1..] == rest;
  }

  /** With the fixed path, any fingerprint free of `]` splits back out of the key, followed by `/48'/0'/0'/2'`. */
  lemma FixedPathKeySplits(fgp: string, xpub: string)
    requires ']' !in fgp
    ensures |DescriptorKey(fgp, Derivation, xpub)| == |fgp| + 15 + |xpub|
    ensures ParseKeyExpression(DescriptorKey(fgp, Derivation, xpub))
      == Some(KeyExpression(fgp + "/48'/0'/0'/2'", xpub))
  {
    assert SubstrFrom(Derivation, 1) == "/48'/0'/0'/2'";
    DescriptorKeySplits(fgp, Derivation, xpub);
  }

  /** The fixed path with fingerprint "12345678". */
  lemma FixedPathDescriptorKey(xpub: string)
    ensures DescriptorKey("12345678", Derivation, xpub) == "[12345678/48'/0'/0'/2']" + xpub
  {
    var rest := SubstrFrom(Derivation, 1);
    assert rest == "/48'/0'/0'/2'";
    var origin := "[" + "12345678" + rest + "]";
    assert origin == "[12345678/48'/0'/0'/2']";
    assert DescriptorKey("12345678", Derivation, xpub) == origin + xpub;
  }
}
