/** The multisig account confirmation of the Bitcoin app: a pure table that
    picks the xpub encoding to show, and the sequence of confirmation screens
    (summary, account name, one screen per cosigner). */
module ConfirmMultisig {
  import opened Outcomes

  const UNKNOWN_COIN := "confirm multisig: unknown coin"
  const UNKNOWN_XPUB_TYPE := "confirm multisig: unknown xpub_type"

  /** BTCCoin; OtherCoin stands for any value outside the four handled ones. */
  datatype Coin = BTC | TBTC | LTC | TLTC | OtherCoin(code: int)

  /** BTCScriptConfig_Multisig_ScriptType. */
  datatype ScriptType = P2WSH | P2WSH_P2SH | OtherScriptType(code: int)

  /** BTCRegisterScriptConfigRequest_XPubType: the family the host asks for. */
  datatype XPubFamily = AutoElectrum | AutoXPubTPub | OtherFamily(code: int)

  /** The BTCPubRequest_XPubType values this table can produce. */
  datatype XPubFormat = Xpub | Tpub | CapitalZpub | CapitalYpub | CapitalVpub | CapitalUpub

  /** A concrete format, a plain `return false`, or an Abort. */
  datatype Resolution = Resolved(format: XPubFormat) | Unsupported | Abort(reason: string)

  /** The protobuf XPub message and the decoded BIP-32 key; both opaque here. */
  datatype XPub = XPub(serialized: seq<bv8>)
  datatype ExtKey = ExtKey(key: seq<bv8>)

  datatype Multisig = Multisig(threshold: nat, xpubs: seq<XPub>, ourXPubIndex: nat, scriptType: ScriptType)

  /** What a confirmation screen shows; the formatted text is left abstract. */
  datatype Body =
    | Summary(coin: Coin, threshold: nat, cosigners: nat)
    | AccountName(name: string)
    | Cosigner(position: nat, total: nat, thisDevice: bool, xpub: string)

  /** confirm_params_t, restricted to the fields this workflow sets. */
  datatype ConfirmParams = ConfirmParams(
    title: string, body: Body, scrollable: bool, longtouch: bool, acceptIsNextArrow: bool)

  predicate IsTestnet(coin: Coin) {
    coin == TBTC || coin == TLTC
  }

  /** SLIP-0132: the network a format's version bytes belong to. */
  predicate IsTestnetFormat(f: XPubFormat) {
    f == Tpub || f == CapitalVpub || f == CapitalUpub
  }

  /** SLIP-0132: the multisig script a capital format announces, if any. */
  function AnnouncedScript(f: XPubFormat): Option<ScriptType> {
    match f
    case Xpub => None
    case Tpub => None
    case CapitalZpub => Some(P2WSH)
    case CapitalVpub => Some(P2WSH)
    case CapitalYpub => Some(P2WSH_P2SH)
    case CapitalUpub => Some(P2WSH_P2SH)
  }

  /** The nested switch on xpub_type, coin and script type. The ensures pin
      the result down through the independent SLIP-0132 view of a format:
      it halts exactly on an unknown family or coin, fails exactly on an
      Electrum request for an unsupported script, and otherwise yields the
      format whose network matches the coin and which announces the script
      (Electrum) or no script (xpub/tpub). */
  function ResolveOutputXPubType(family: XPubFamily, coin: Coin, script: ScriptType): (r: Resolution)
    ensures r.Abort? <==> family.OtherFamily? || coin.OtherCoin?
    ensures r.Abort? ==> r.reason == (if family.OtherFamily? then UNKNOWN_XPUB_TYPE else UNKNOWN_COIN)
    ensures r.Unsupported? <==> family == AutoElectrum && !coin.OtherCoin? && script.OtherScriptType?
    ensures r.Resolved? ==> (IsTestnetFormat(r.format) <==> IsTestnet(coin))
    ensures r.Resolved? && family == AutoElectrum ==> AnnouncedScript(r.format) == Some(script)
    ensures r.Resolved? && family == AutoXPubTPub ==> AnnouncedScript(r.format) == None
  {
    match family
    case AutoElectrum =>
      (match coin
       case BTC | LTC =>
         (match script
          case P2WSH => Resolved(CapitalZpub)
          case P2WSH_P2SH => Resolved(CapitalYpub)
          case OtherScriptType(_) => Unsupported)
       case TBTC | TLTC =>
         (match script
          case P2WSH => Resolved(CapitalVpub)
          case P2WSH_P2SH => Resolved(CapitalUpub)
          case OtherScriptType(_) => Unsupported)
       case OtherCoin(_) => Abort(UNKNOWN_COIN))
    case AutoXPubTPub =>
      (match coin
       case BTC | LTC => Resolved(Xpub)
       case TBTC | TLTC => Resolved(Tpub)
       case OtherCoin(_) => Abort(UNKNOWN_COIN))
    case OtherFamily(_) => Abort(UNKNOWN_XPUB_TYPE)
  }

  /** The resolved format is the only one with the right network and the
      right announced script: the table has no alternative answer. */
  lemma ResolutionIsUnique(family: XPubFamily, coin: Coin, script: ScriptType, g: XPubFormat)
    requires ResolveOutputXPubType(family, coin, script).Resolved?
    requires IsTestnetFormat(g) <==> IsTestnet(coin)
    requires AnnouncedScript(g) == (if family == AutoElectrum then Some(script) else None)
    ensures g == ResolveOutputXPubType(family, coin, script).format
  {
  }

  /** Decode the cosigner's xpub message, then encode it in the format. */
  function EncodedXPub(
    xpub: XPub, format: XPubFormat,
    decode: XPub -> Option<ExtKey>, encode: (ExtKey, XPubFormat) -> Option<string>): Option<string>
  {
    match decode(xpub)
    case None => None
    case Some(key) => encode(key, format)
  }

  /** Everything the user must accept and every encoding that must succeed
      for the workflow to return true. */
  predicate Approved(
    coin: Coin, multisig: Multisig, verifyXPubs: bool, family: XPubFamily, answers: seq<bool>,
    decode: XPub -> Option<ExtKey>, encode: (ExtKey, XPubFormat) -> Option<string>)
  {
    && |answers| >= 2 && answers[0] && answers[1]
    && (verifyXPubs ==>
          var res := ResolveOutputXPubType(family, coin, multisig.scriptType);
          && res.Resolved?
          && |answers| >= 2 + |multisig.xpubs|
          && forall i :: 0 <= i < |multisig.xpubs| ==>
               EncodedXPub(multisig.xpubs[i], res.format, decode, encode).Some? && answers[2 + i])
  }

  /** The screen for cosigner i (0-based) of `count`: scrollable, labelled
      "Cosigner i+1/count", marked when it is this device, and confirmed by
      a long touch on the last one. */
  function CosignerScreen(title: string, i: nat, count: nat, ourXPubIndex: nat, xpub: string): ConfirmParams {
    ConfirmParams(title, Cosigner(i + 1, count, i == ourXPubIndex, xpub), true, i == count - 1, true)
  }

  /** The cosigner loop: decode and encode each xpub in `format`, show it,
      and wait for its answer (answers[i] answers the screen of cosigner i). */
  method ConfirmCosigners(
    title: string, xpubs: seq<XPub>, ourXPubIndex: nat, format: XPubFormat, answers: seq<bool>,
    decode: XPub -> Option<ExtKey>, encode: (ExtKey, XPubFormat) -> Option<string>)
    returns (r: Verdict, prompts: seq<ConfirmParams>)
    ensures |prompts| <= |xpubs| && |prompts| <= |answers| + 1
    ensures forall k :: 0 <= k < |prompts| - 1 ==> answers[k]
    ensures forall k :: 0 <= k < |prompts| ==>
              && EncodedXPub(xpubs[k], format, decode, encode).Some?
              && prompts[k] == CosignerScreen(title, k, |xpubs|, ourXPubIndex,
                                              EncodedXPub(xpubs[k], format, decode, encode).value)
    ensures r == Returned(true) <==>
              |answers| >= |xpubs| &&
              forall i :: 0 <= i < |xpubs| ==> EncodedXPub(xpubs[i], format, decode, encode).Some? && answers[i]
    ensures r == Returned(true) ==> |prompts| == |xpubs|
    ensures !r.Halted?
    ensures r == Blocked <==> |prompts| == |answers| + 1
    // a false result is the decline of the last screen shown, or the
    // failed encoding of the cosigner after it
    ensures r == Returned(false) ==>
              || (0 < |prompts| && !answers[|prompts| - 1])
              || (|prompts| < |xpubs| && EncodedXPub(xpubs[|prompts|], format, decode, encode).None?)
  {
    prompts := [];
    for i := 0 to |xpubs|
      invariant |prompts| == i <= |answers|
      invariant forall k :: 0 <= k < i ==> answers[k] && EncodedXPub(xpubs[k], format, decode, encode).Some?
      invariant forall k :: 0 <= k < i ==>
                  prompts[k] == CosignerScreen(title, k, |xpubs|, ourXPubIndex,
                                               EncodedXPub(xpubs[k], format, decode, encode).value)
    {
      var key := decode(xpubs[i]);
      if key.None? {
        return Returned(false), prompts;
      }
      var encoded := encode(key.value, format);
      if encoded.None? {
        return Returned(false), prompts;
      }
      prompts := prompts + [CosignerScreen(title, i, |xpubs|, ourXPubIndex, encoded.value)];
      if i == |answers| {
        return Blocked, prompts;
      }
      if !answers[i] {
        return Returned(false), prompts;
      }
    }
    return Returned(true), prompts;
  }

  /** apps_btc_confirm_multisig. The k-th prompt is answered by answers[k];
      `prompts` lists every confirmation screen shown, in order. */
  method Confirm(
    title: string, coin: Coin, name: string, multisig: Multisig, verifyXPubs: bool, family: XPubFamily,
    answers: seq<bool>, decode: XPub -> Option<ExtKey>, encode: (ExtKey, XPubFormat) -> Option<string>)
    returns (r: Verdict, prompts: seq<ConfirmParams>)
    // the summary comes first, then the account name
    ensures 1 <= |prompts| <= |answers| + 1
    ensures prompts[0] == ConfirmParams(title, Summary(coin, multisig.threshold, |multisig.xpubs|), false, false, true)
    ensures |prompts| >= 2 ==> prompts[1] == ConfirmParams(title, AccountName(name), true, false, true)
    // nothing is shown after a declined prompt
    ensures forall k :: 0 <= k < |prompts| - 1 ==> answers[k]
    // cosigner screens: only with verification, ascending, labelled, long touch on the last
    ensures |prompts| > 2 ==> verifyXPubs && ResolveOutputXPubType(family, coin, multisig.scriptType).Resolved?
    ensures forall k :: 2 <= k < |prompts| ==>
              && k - 2 < |multisig.xpubs|
              && var xpub := EncodedXPub(multisig.xpubs[k - 2],
                                         ResolveOutputXPubType(family, coin, multisig.scriptType).format, decode, encode);
                 xpub.Some? &&
                 prompts[k] == CosignerScreen(title, k - 2, |multisig.xpubs|, multisig.ourXPubIndex, xpub.value)
    // how it ends
    ensures r == Returned(true) <==> Approved(coin, multisig, verifyXPubs, family, answers, decode, encode)
    ensures r == Returned(true) ==> |prompts| == if verifyXPubs then 2 + |multisig.xpubs| else 2
    ensures r.Halted? <==>
              |answers| >= 2 && answers[0] && answers[1] && verifyXPubs &&
              ResolveOutputXPubType(family, coin, multisig.scriptType).Abort?
    ensures r.Halted? ==> r.reason == ResolveOutputXPubType(family, coin, multisig.scriptType).reason
    ensures r == Blocked <==> |prompts| == |answers| + 1
    // every screen up to the point of failure is shown
    ensures |answers| >= 1 && answers[0] ==> |prompts| >= 2
    ensures r.Halted? ==> |prompts| == 2
    ensures r == Returned(false) ==>
              || (!answers[|prompts| - 1])
              || (verifyXPubs && ResolveOutputXPubType(family, coin, multisig.scriptType).Unsupported? &&
                  |prompts| == 2)
              || (verifyXPubs && ResolveOutputXPubType(family, coin, multisig.scriptType).Resolved? &&
                  2 <= |prompts| < 2 + |multisig.xpubs| &&
                  EncodedXPub(multisig.xpubs[|prompts| - 2],
                              ResolveOutputXPubType(family, coin, multisig.scriptType).format,
                              decode, encode).None?)
  {
    prompts := [ConfirmParams(title, Summary(coin, multisig.threshold, |multisig.xpubs|), false, false, true)];
    if |answers| == 0 {
      return Blocked, prompts;
    }
    if !answers[0] {
      return Returned(false), prompts;
    }
    prompts := prompts + [ConfirmParams(title, AccountName(name), true, false, true)];
    if |answers| == 1 {
      return Blocked, prompts;
    }
    if !answers[1] {
      return Returned(false), prompts;
    }
    if !verifyXPubs {
      return Returned(true), prompts;
    }
    var resolution := ResolveOutputXPubType(family, coin, multisig.scriptType);
    match resolution {
      case Abort(reason) =>
        return Halted(reason), prompts;
      case Unsupported =>
        return Returned(false), prompts;
      case Resolved(_) =>
    }
    var cosigners;
    r, cosigners := ConfirmCosigners(title, multisig.xpubs, multisig.ourXPubIndex, resolution.format, answers[2..],
                                     decode, encode);
    prompts := prompts + cosigners;
    assert forall k :: 2 <= k < |prompts| ==> prompts[k] == cosigners[k - 2];
    assert forall k :: 0 <= k < |answers| - 2 ==> answers[2..][k] == answers[k + 2];
  }
}
