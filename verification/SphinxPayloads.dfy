/** Sphinx payloads: padding and layered encryption (payload/mod.rs). */
module SphinxPayloads {
  import opened Wrappers
  import opened Bytes
  import opened SphinxKeys

  const PAYLOAD_OVERHEAD_SIZE: nat := SECURITY_PARAMETER + 1
  const LIONESS_DIGEST_SIZE: nat := 32

  datatype PayloadError = TooSmallForOverhead | TooSmallForCipher | MessageTooLong | CipherFailed
                        | NoLeadingZeros | NoPadding | TooShort

  // ---- the cipher -----------------------------------------------------------------

  /** A wide-block cipher that refuses blocks shorter than `least` bytes. */
  datatype WideBlock = WideBlock(
    least: nat,
    encrypt: (PayloadKey, seq<byte>) -> Option<seq<byte>>,
    decrypt: (PayloadKey, seq<byte>) -> Option<seq<byte>>)

  /** Every block that is long enough is encrypted, and decrypted by the same key;
      lengths stay the same. The program takes the digest size for the least length;
      whether a block of exactly this size is long enough is left open. */
  ghost predicate Inverts(w: WideBlock) {
    && LIONESS_DIGEST_SIZE <= w.least <= LIONESS_DIGEST_SIZE + 1
    && (forall key, m :: Inverse(w, key, m))
    && (forall key, c :: w.decrypt(key, c).Some? <==> |c| >= w.least)
    && (forall key, c :: w.decrypt(key, c).Some? ==> |w.decrypt(key, c).value| == |c|)
  }

  ghost predicate Inverse(w: WideBlock, key: PayloadKey, m: seq<byte>) {
    match w.encrypt(key, m)
    case None => |m| < w.least
    case Some(c) => |c| == |m| >= w.least && w.decrypt(key, c) == Some(m)
  }

  function Unchanged(block: seq<byte>): Option<seq<byte>> {
    if |block| >= LIONESS_DIGEST_SIZE then Some(block) else None
  }

  type InvertibleCipher = w: WideBlock | Inverts(w)
    witness WideBlock(LIONESS_DIGEST_SIZE, (key, m) => Unchanged(m), (key, c) => Unchanged(c))

  const Lioness: InvertibleCipher

  // ---- the sender --------------------------------------------------------------------

  function Validate(payloadSize: nat, plaintextLen: nat): Option<PayloadError> {
    if payloadSize < PAYLOAD_OVERHEAD_SIZE then Some(TooSmallForOverhead)
    else if payloadSize < LIONESS_DIGEST_SIZE then Some(TooSmallForCipher)
    else if plaintextLen > payloadSize - PAYLOAD_OVERHEAD_SIZE then Some(MessageTooLong)
    else None
  }

  /** Zeros, the message, a single one, and zeros up to the payload size. */
  function FinalPayload(message: seq<byte>, payloadSize: nat): (p: seq<byte>)
    requires Validate(payloadSize, |message|).None?
    ensures |p| == payloadSize
  {
    Zeros(SECURITY_PARAMETER) + message + [1] + Zeros(payloadSize - PAYLOAD_OVERHEAD_SIZE - |message|)
  }

  function AddLayer(payload: seq<byte>, key: PayloadKey): Result<seq<byte>, PayloadError> {
    match Lioness.encrypt(key, payload)
    case None => Err(CipherFailed)
    case Some(c) => Ok(c)
  }

  /** The encryption layers of all keys; the last key is applied first. */
  function AddLayers(payload: seq<byte>, keys: seq<PayloadKey>): Result<seq<byte>, PayloadError>
    decreases |keys|
  {
    if keys == [] then Ok(payload)
    else
      match AddLayers(payload, keys[1..])
      case Err(e) => Err(e)
      case Ok(inner) => AddLayer(inner, keys[0])
  }

  function EncryptedMessage(message: seq<byte>, keys: seq<PayloadKey>, payloadSize: nat): Result<seq<byte>, PayloadError> {
    match Validate(payloadSize, |message|)
    case Some(e) => Err(e)
    case None => AddLayers(FinalPayload(message, payloadSize), keys)
  }

  method EncapsulateMessage(message: seq<byte>, keys: seq<PayloadKey>, payloadSize: nat)
    returns (r: Result<seq<byte>, PayloadError>)
    ensures r == EncryptedMessage(message, keys, payloadSize)
  {
    var invalid := Validate(payloadSize, |message|);
    if invalid.Some? {
      return Err(invalid.value);
    }
    var final := FinalPayload(message, payloadSize);
    var payload := final;
    var i := |keys|;
    assert keys[|keys|..] == [];
    while i > 0
      invariant 0 <= i <= |keys|
      invariant AddLayers(final, keys[i..]) == Ok(payload)
    {
      i := i - 1;
      assert keys[i..][1..] == keys[i + 1..];
      var layer := AddLayer(payload, keys[i]);
      if layer.Err? {
        FailureStays(final, keys, i, layer.error);
        return Err(layer.error);
      }
      payload := layer.value;
    }
    assert keys[0..] == keys;
    r := Ok(payload);
  }

  lemma {:induction false} FailureStays(final: seq<byte>, keys: seq<PayloadKey>, i: nat, e: PayloadError)
    requires i <= |keys| && AddLayers(final, keys[i..]) == Err(e)
    ensures AddLayers(final, keys) == Err(e)
  {
    if i == 0 {
      assert keys[0..] == keys;
    } else {
      assert keys[i - 1..][1..] == keys[i..];
      FailureStays(final, keys, i - 1, e);
    }
  }

  // ---- the receivers --------------------------------------------------------------------

  function UnwrapPayload(payload: seq<byte>, key: PayloadKey): Result<seq<byte>, PayloadError> {
    match Lioness.decrypt(key, payload)
    case None => Err(CipherFailed)
    case Some(m) => Ok(m)
  }

  /** Takes the layers off in the order of the route. */
  function UnwrapAll(payload: seq<byte>, keys: seq<PayloadKey>): Result<seq<byte>, PayloadError>
    decreases |keys|
  {
    if keys == [] then Ok(payload)
    else
      match UnwrapPayload(payload, keys[0])
      case Err(e) => Err(e)
      case Ok(m) => UnwrapAll(m, keys[1..])
  }

  /** The last position of a byte one. */
  function LastOne(s: seq<byte>): (i: Option<nat>)
    ensures i.Some? ==> i.value < |s| && s[i.value] == 1
    ensures i.None? ==> 1 !in s
  {
    if s == [] then None
    else if s[|s| - 1] == 1 then Some(|s| - 1)
    else LastOne(s[..|s| - 1])
  }

  function Min(a: nat, b: nat): nat {
    if a < b then a else b
  }

  function RecoverPlaintext(payload: seq<byte>): Result<seq<byte>, PayloadError> {
    var lead := Min(SECURITY_PARAMETER, |payload|);
    if exists i | 0 <= i < lead :: payload[i] != 0 then Err(NoLeadingZeros)
    else
      match LastOne(payload[lead..])
      case None => Err(NoPadding)
      case Some(i) => Ok(payload[lead..][..i])
  }

  // ---- round trips -------------------------------------------------------------------------

  lemma {:induction false} LastOneBeforeZeros(message: seq<byte>, n: nat)
    ensures LastOne(message + [1] + Zeros(n)) == Some(|message|)
    decreases n
  {
    var s := message + [1] + Zeros(n);
    if n > 0 {
      LastOneBeforeZeros(message, n - 1);
      assert s[..|s| - 1] == message + [1] + Zeros(n - 1);
    }
  }

  /** The padding can be taken off again, whatever bytes the message ends with. */
  lemma {:induction false} PaddingRoundTrip(message: seq<byte>, payloadSize: nat)
    requires Validate(payloadSize, |message|).None?
    ensures RecoverPlaintext(FinalPayload(message, payloadSize)) == Ok(message)
  {
    var p := FinalPayload(message, payloadSize);
    var n := payloadSize - PAYLOAD_OVERHEAD_SIZE - |message|;
    LastOneBeforeZeros(message, n);
    assert p[SECURITY_PARAMETER..] == message + [1] + Zeros(n);
    assert (message + [1] + Zeros(n))[..|message|] == message;
  }

  lemma {:induction false} LastOneIs(s: seq<byte>, i: nat)
    ensures LastOne(s) == Some(i) <==> i < |s| && s[i] == 1 && 1 !in s[i + 1..]
  {
    if s != [] {
      var n := |s| - 1;
      if s[n] != 1 {
        LastOneIs(s[..n], i);
        if i < n {
          assert s[i + 1..] == s[..n][i + 1..] + [s[n]];
        }
      } else if i < n {
        assert s[i + 1..][n - (i + 1)] == s[n];
      }
    }
  }

  lemma {:induction false} ShortFails(payload: seq<byte>)
    requires |payload| < SECURITY_PARAMETER
    ensures RecoverPlaintext(payload).Err?
  {
    assert payload[|payload|..] == [];
  }

  lemma {:induction false} RecoveredParts(payload: seq<byte>, message: seq<byte>)
    requires |payload| >= SECURITY_PARAMETER && RecoverPlaintext(payload) == Ok(message)
    ensures exists rest | 1 !in rest :: payload == Zeros(SECURITY_PARAMETER) + message + [1] + rest
  {
    var tail, n := payload[SECURITY_PARAMETER..], |message|;
    LastOneIs(tail, n);
    assert payload[..SECURITY_PARAMETER] == Zeros(SECURITY_PARAMETER);
    assert tail == tail[..n] + [tail[n]] + tail[n + 1..];
    assert payload == Zeros(SECURITY_PARAMETER) + message + [1] + tail[n + 1..];
  }

  lemma {:induction false} PartsRecovered(message: seq<byte>, rest: seq<byte>)
    requires 1 !in rest
    ensures RecoverPlaintext(Zeros(SECURITY_PARAMETER) + message + [1] + rest) == Ok(message)
  {
    var payload, tail := Zeros(SECURITY_PARAMETER) + message + [1] + rest, message + [1] + rest;
    assert payload[SECURITY_PARAMETER..] == tail;
    LastOneIs(tail, |message|);
    assert tail[|message| + 1..] == rest && tail[..|message|] == message;
  }

  /** Recovering succeeds exactly on the payloads that consist of leading zeros, the
      message, a one, and anything without another one. */
  lemma {:induction false} RecoverMeaning(payload: seq<byte>, message: seq<byte>)
    ensures RecoverPlaintext(payload) == Ok(message) <==>
      exists rest | 1 !in rest :: payload == Zeros(SECURITY_PARAMETER) + message + [1] + rest
  {
    hide RecoverPlaintext;
    if |payload| < SECURITY_PARAMETER {
      ShortFails(payload);
    } else if RecoverPlaintext(payload) == Ok(message) {
      RecoveredParts(payload, message);
    }
    if rest :| 1 !in rest && payload == Zeros(SECURITY_PARAMETER) + message + [1] + rest {
      PartsRecovered(message, rest);
    }
  }

  /** The two ways in which recovering fails. */
  lemma {:induction false} RecoverRefuses(payload: seq<byte>)
    ensures var lead, r := Min(16, |payload|), RecoverPlaintext(payload);
      && (r == Err(NoLeadingZeros) <==> exists i | 0 <= i < lead :: payload[i] != 0)
      && (r == Err(NoPadding) <==> (forall i | 0 <= i < lead :: payload[i] == 0) && 1 !in payload[lead..])
  {
  }

  /** Layers are added to exactly the payloads that are long enough for the cipher. */
  lemma {:induction false} LayersSucceed(payload: seq<byte>, keys: seq<PayloadKey>)
    ensures AddLayers(payload, keys) == Err(CipherFailed) <==> keys != [] && |payload| < Lioness.least
    ensures AddLayers(payload, keys).Err? <==> keys != [] && |payload| < Lioness.least
    ensures AddLayers(payload, keys).Ok? ==> |AddLayers(payload, keys).value| == |payload|
    decreases |keys|
  {
    if keys != [] {
      LayersSucceed(payload, keys[1..]);
      if AddLayers(payload, keys[1..]).Ok? {
        assert Inverse(Lioness, keys[0], AddLayers(payload, keys[1..]).value);
      }
    }
  }

  /** `layers` are the payloads between the layers: the innermost is the plain one, and
      each other is the encryption of the next under its key. */
  ghost predicate Nested(payload: seq<byte>, keys: seq<PayloadKey>, layers: seq<seq<byte>>) {
    && |layers| == |keys| + 1 && layers[|keys|] == payload
    && forall i | 0 <= i < |keys| :: Lioness.encrypt(keys[i], layers[i + 1]) == Some(layers[i])
  }

  /** Every payload with layers is such a nesting. */
  lemma {:induction false} LayersAreNested(payload: seq<byte>, keys: seq<PayloadKey>) returns (layers: seq<seq<byte>>)
    requires AddLayers(payload, keys).Ok?
    ensures Nested(payload, keys, layers) && layers[0] == AddLayers(payload, keys).value
    decreases |keys|
  {
    if keys == [] {
      layers := [payload];
    } else {
      var inner := LayersAreNested(payload, keys[1..]);
      layers := [AddLayers(payload, keys).value] + inner;
      forall i | 0 <= i < |keys|
        ensures Lioness.encrypt(keys[i], layers[i + 1]) == Some(layers[i])
      {
        if i > 0 {
          assert Lioness.encrypt(keys[1..][i - 1], inner[i - 1 + 1]) == Some(inner[i - 1]);
        }
      }
    }
  }

  lemma {:induction false} LayersRoundTrip(payload: seq<byte>, keys: seq<PayloadKey>)
    requires keys == [] || |payload| >= Lioness.least
    ensures AddLayers(payload, keys).Ok?
    ensures UnwrapAll(AddLayers(payload, keys).value, keys) == Ok(payload)
    ensures |AddLayers(payload, keys).value| == |payload|
    decreases |keys|
  {
    LayersSucceed(payload, keys);
    if keys != [] {
      LayersSucceed(payload, keys[1..]);
      var inner := AddLayers(payload, keys[1..]).value;
      LayersRoundTrip(payload, keys[1..]);
      assert Inverse(Lioness, keys[0], inner);
    }
  }

  /** Before any encryption, exactly the payload sizes below the cipher's block and
      the messages that leave no room for the overhead are refused. */
  lemma {:induction false} SizesAccepted(message: seq<byte>, keys: seq<PayloadKey>, payloadSize: nat)
    ensures var r := EncryptedMessage(message, keys, payloadSize);
      (r.Err? && r.error != CipherFailed) <==>
      payloadSize < LIONESS_DIGEST_SIZE || |message| + PAYLOAD_OVERHEAD_SIZE > payloadSize
    ensures var r := EncryptedMessage(message, keys, payloadSize);
      && (r == Err(TooSmallForOverhead) <==> payloadSize < 17)
      && (r == Err(TooSmallForCipher) <==> 17 <= payloadSize < 32)
      && (r == Err(MessageTooLong) <==> 32 <= payloadSize < |message| + 17)
  {
    if Validate(payloadSize, |message|).None? {
      LayersSucceed(FinalPayload(message, payloadSize), keys);
    }
  }

  /** A message that fits into the payload, with all its overhead, if the payload is
      long enough for the layers of the given keys. */
  predicate Fits(message: seq<byte>, keys: seq<PayloadKey>, payloadSize: nat) {
    && LIONESS_DIGEST_SIZE <= payloadSize
    && |message| + PAYLOAD_OVERHEAD_SIZE <= payloadSize
    && (keys == [] || Lioness.least <= payloadSize)
  }

  /** Exactly the messages that fit are encrypted, to payloads of the wanted size. */
  lemma {:induction false} FitsExactly(message: seq<byte>, keys: seq<PayloadKey>, payloadSize: nat)
    ensures EncryptedMessage(message, keys, payloadSize).Ok? <==> Fits(message, keys, payloadSize)
    ensures EncryptedMessage(message, keys, payloadSize) == Err(CipherFailed) <==>
      keys != [] && Validate(payloadSize, |message|).None? && payloadSize < Lioness.least
    ensures Fits(message, keys, payloadSize) ==> |EncryptedMessage(message, keys, payloadSize).value| == payloadSize
  {
    if Validate(payloadSize, |message|).None? {
      LayersSucceed(FinalPayload(message, payloadSize), keys);
    }
  }

  /** The payload round trip: for every message that fits and every list of keys,
      unwrapping in the order of the route and taking the padding off returns the
      message. */
  lemma {:induction false} PayloadRoundTrip(message: seq<byte>, keys: seq<PayloadKey>, payloadSize: nat)
    requires Fits(message, keys, payloadSize)
    ensures EncryptedMessage(message, keys, payloadSize).Ok?
    ensures var r := UnwrapAll(EncryptedMessage(message, keys, payloadSize).value, keys);
            r.Ok? && |r.value| == payloadSize && RecoverPlaintext(r.value) == Ok(message)
  {
    hide RecoverPlaintext, FinalPayload;
    LayersRoundTrip(FinalPayload(message, payloadSize), keys);
    PaddingRoundTrip(message, payloadSize);
  }

  /** The bytes that are encrypted: 16 zeros, the message, a one, and zeros up to the
      size, under the nested layers. */
  lemma {:induction false} EncryptedBytes(message: seq<byte>, keys: seq<PayloadKey>, payloadSize: nat) returns (layers: seq<seq<byte>>)
    requires Fits(message, keys, payloadSize)
    ensures Nested(Zeros(16) + message + [1] + Zeros(payloadSize - 17 - |message|), keys, layers)
    ensures EncryptedMessage(message, keys, payloadSize) == Ok(layers[0])
  {
    hide Nested;
    FitsExactly(message, keys, payloadSize);
    layers := LayersAreNested(FinalPayload(message, payloadSize), keys);
  }
}
