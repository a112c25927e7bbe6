/**
 * The "get xpub" action: ask the Bitcoin app for the xpub of the fixed path,
 * then ask the device for the master fingerprint, then assemble the
 * descriptor key. Both device calls are awaited in that order, and the first
 * one that rejects ends the action with its error.
 */
module GetXpub {
  import opened Wrappers
  import opened JsStrings
  import opened Fingerprint
  import opened Descriptor

  /** The arguments handed to the Bitcoin app's xpub export; the xpub it returns is not inspected. */
  datatype WalletXpubRequest = WalletXpubRequest(path: string, xpubVersion: int)

  /** The BIP 32 mainnet public version bytes. */
  const MainnetXpubVersion: int := 0x0488B21E

  /** The request the action sends; its path is also the one written into the descriptor key. */
  const XpubRequest: WalletXpubRequest := WalletXpubRequest(Derivation, MainnetXpubVersion)

  /**
   * The outcome of the action, given what the xpub request and the fingerprint
   * command resolve or reject with. The fingerprint reply is only consulted
   * when the xpub request succeeded, since the command is sent after it.
   */
  function HandleGetXpub<E>(xpubReply: Result<string, E>, fingerprintReply: Result<seq<Byte>, E>): (r: Result<string, E>)
    ensures r.Success? <==> xpubReply.Success? && fingerprintReply.Success?
    ensures xpubReply.Failure? ==> r == Failure(xpubReply.error)
    ensures xpubReply.Success? && fingerprintReply.Failure? ==> r == Failure(fingerprintReply.error)
    ensures r.Success? ==>
      ParseKeyExpression(r.value)
        == Some(KeyExpression(GetFingerprint(fingerprintReply.value) + "/48'/0'/0'/2'", xpubReply.value))
    ensures r.Success? && |fingerprintReply.value| >= 4 ==> |r.value| == 23 + |xpubReply.value|
  {
    match xpubReply
    case Failure(e) => Failure(e)
    case Success(xpub) =>
      match fingerprintReply
      case Failure(e) => Failure(e)
      case Success(response) =>
        var fgp := GetFingerprint(response);
        FingerprintHasNoBracket(response);
        FixedPathKeySplits(fgp, xpub);
        Success(DescriptorKey(fgp, XpubRequest.path, xpub))
  }

  /** A rendered fingerprint holds only hex digits, so never the `]` that closes the key origin. */
  lemma FingerprintHasNoBracket(response: seq<Byte>)
    ensures ']' !in GetFingerprint(response)
  {
    HexJoinIsHex(response[..Min(4, |response|)]);
  }

  /**
   * The whole action for the xpub "xpubD6..." and a reply carrying the fingerprint
   * 12 34 56 78 followed by the 0x9000 status word.
   */
  lemma HandleGetXpubExample<E>()
    ensures HandleGetXpub<E>(Success("xpubD6..."), Success([0x12, 0x34, 0x56, 0x78, 0x90, 0x00]))
      == Success("[12345678/48'/0'/0'/2']xpubD6...")
  {
    var reply: seq<Byte> := [0x12, 0x34, 0x56, 0x78, 0x90, 0x00];
    FingerprintWithStatusWord();
    assert GetFingerprint(reply) == "12345678";
    FixedPathDescriptorKey("xpubD6...");
    assert DescriptorKey("12345678", Derivation, "xpubD6...") == "[12345678/48'/0'/0'/2']xpubD6...";
  }
}
