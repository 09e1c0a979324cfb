/** Whole messages through CCM: the one-call forms of cryptlib.cpp, and messages fed in any chunks. */
module CcmMessages {
  import opened Powers
  import opened Bytes
  import opened BlockChaining
  import opened Rfc3610
  import opened Ccm

  /** The parameters a nonce selects. */
  function Selected(digestSize: nat, iv: seq<byte>): Parameters
    requires 7 <= |iv| <= 13
  {
    Parameters(digestSize, 15 - |iv|, iv)
  }

  lemma SelectedMeans(digestSize: nat, iv: seq<byte>)
    requires 7 <= |iv| <= 13
    ensures var p := Selected(digestSize, iv); p.M == digestSize && p.nonce == iv && p.L + |iv| == 15
  {
  }

  /** Between the declaration of the lengths and the tag. */
  ghost predicate Sending(c: CCM, E: Cipher, p: Parameters, headerLength: nat, messageLength: nat)
    reads c, c.m_buffer
  {
    && c.Valid() && c.AfterIV() && c.proper && c.declared
    && c.SameSession(E, p, headerLength, messageLength)
    && headerLength < LWORD && messageLength <= MaxMessageLength(p.L)
  }

  lemma SendingFits(c: CCM, E: Cipher, p: Parameters, headerLength: nat, messageLength: nat)
    requires Sending(c, E, p, headerLength, messageLength)
    ensures Fits(p) && IsCipher(E, 16) && messageLength < LWORD
  {
    hide Absorb, InitialCounter, B0, HeaderPrefix, Pad, Fits, MaxMessageLength;
    c.OpenSession();
    c.CounterLength();
    MaxBelowWord(p.L);
  }

  /** The next part of the message will be taken. */
  lemma PartAccepted(c: CCM, n: nat)
    requires c.Valid() && c.AfterIV() && c.proper && c.declared && |c.message| + n < LWORD
    requires c.m_state == IVSet ==> c.m_aadLength == |c.header| < LWORD
    ensures (c.m_totalMessageLength + n) % LWORD == |c.message| + n && c.m_state != AuthFooter
    ensures c.m_state == IVSet ==> c.m_aadLength == c.m_totalHeaderLength
  {
    hide Absorb, InitialCounter, B0, HeaderPrefix, Pad, Fits, IsCipher, Absorb;
    c.OpenPhase();
    WordAdds(|c.message|, n);
  }

  /** Resynchronize and SpecifyDataLengths. */
  method StartMessage(c: CCM, iv: seq<byte>, headerLength: nat, messageLength: nat) returns (outcome: Outcome)
    requires c.Valid() && headerLength < LWORD && messageLength < LWORD
    modifies c, c.m_buffer
    ensures c.Valid() && c.Unchanged(old(c.E), old(c.m_digestSize))
    ensures outcome == if old(c.m_state) == Start then BadState
                       else if 7 <= |iv| <= 13 && messageLength <= MaxMessageLength(15 - |iv|) then Ok else InvalidArgument
    ensures outcome == Ok ==> c.m_state == IVSet && c.header == [] && c.message == []
    ensures outcome == Ok ==> Sending(c, c.E, Selected(c.m_digestSize, iv), headerLength, messageLength)
  {
    outcome := c.Resynchronize(iv);
    if outcome == Ok {
      outcome := c.SpecifyDataLengths(headerLength, messageLength);
    }
  }

  /** The header in any number of Update calls. */
  method FeedHeader(c: CCM, parts: seq<seq<byte>>, ghost E: Cipher, ghost p: Parameters, ghost messageLength: nat)
    requires Sending(c, E, p, |Flatten(parts)|, messageLength) && c.m_state == IVSet && c.header == [] && c.message == []
    modifies c, c.m_buffer
    ensures Sending(c, E, p, |Flatten(parts)|, messageLength) && c.m_state == IVSet
    ensures c.header == Flatten(parts) && c.message == []
  {
    hide Absorb, CCM.Valid, Fits, IsCipher;
    for i := 0 to |parts|
      invariant Sending(c, E, p, |Flatten(parts)|, messageLength) && c.m_state == IVSet
      invariant c.header == Flatten(parts[..i]) && c.message == []
    {
      FlattenNext(parts, i);
      var _ := c.Update(parts[i]);
    }
    assert parts[..|parts|] == parts;
  }

  /** The message in any number of ProcessData calls. */
  method FeedMessage(c: CCM, parts: seq<seq<byte>>, ghost E: Cipher, ghost p: Parameters) returns (output: seq<byte>)
    requires Fits(p) && IsCipher(E, 16)
    requires Sending(c, E, p, |c.header|, |Flatten(parts)|) && c.m_state == IVSet && c.message == []
    modifies c, c.m_buffer
    ensures Sending(c, E, p, |c.header|, |Flatten(parts)|) && c.header == old(c.header)
    ensures output == Encrypt(E, p, Flatten(parts)) && c.message == c.Plaintext(Flatten(parts), output)
  {
    hide Absorb, CCM.Valid, Fits, IsCipher, Flatten, Stream, MaxMessageLength, Sending;
    output := [];
    ghost var length := |c.header|;
    ghost var total := |Flatten(parts)|;
    Nothing(E, p);
    for i := 0 to |parts|
      invariant Sending(c, E, p, length, total) && c.header == old(c.header) && c.m_state != AuthFooter
      invariant output == Encrypt(E, p, Flatten(parts[..i])) && c.message == c.Plaintext(Flatten(parts[..i]), output)
    {
      FlattenNext(parts, i);
      FlattenGrows(parts, i + 1);
      ghost var sent := Flatten(parts[..i]);
      var part := FeedPart(c, parts[i], E, p, length, total);
      MaskedAppend(E, p, 16, sent, parts[i]);
      output := output + part;
    }
    assert parts[..|parts|] == parts;
  }

  lemma Nothing(E: Cipher, p: Parameters)
    requires IsCipher(E, 16) && Fits(p)
    ensures Flatten([]) == [] && Encrypt(E, p, []) == []
  {
  }

  /** One ProcessData call within the declared length. */
  method FeedPart(c: CCM, part: seq<byte>, ghost E: Cipher, ghost p: Parameters, ghost headerLength: nat, ghost messageLength: nat) returns (output: seq<byte>)
    requires Fits(p) && IsCipher(E, 16)
    requires Sending(c, E, p, headerLength, messageLength) && headerLength == |c.header| && |c.message| + |part| <= messageLength
    modifies c, c.m_buffer
    ensures Sending(c, E, p, headerLength, messageLength) && c.header == old(c.header) && c.InMessage()
    ensures output == XorBytes(part, Stream(E, p, 16 + |old(c.message)|, |part|))
    ensures c.message == old(c.message) + c.Plaintext(part, output)
  {
    hide Absorb, CCM.Valid, Fits, IsCipher, Stream, MaxMessageLength;
    SendingFits(c, E, p, headerLength, messageLength);
    PartAccepted(c, |part|);
    var outcome;
    outcome, output := c.ProcessData(part);
  }

  /** TruncatedFinal once everything has arrived. */
  method Finish(c: CCM, macSize: nat, ghost E: Cipher, ghost p: Parameters) returns (mac: seq<byte>)
    requires Fits(p) && IsCipher(E, 16) && macSize <= 16
    requires Sending(c, E, p, |c.header|, |c.message|)
    modifies c, c.m_buffer
    ensures c.Valid() && c.Unchanged(E, p.M) && c.m_state == KeySet
    ensures c.header == old(c.header) && c.message == old(c.message) && mac == TagBytes(E, p, c.header, c.message, macSize)
  {
    hide Absorb, CCM.Valid, IsCipher, Stream, MaxMessageLength, TagBytes;
    SendingFits(c, E, p, |c.header|, |c.message|);
    c.CompleteIsAccepted();
    var outcome;
    outcome, mac := c.TruncatedFinal(macSize);
  }

  /** EncryptAndAuthenticate, by an encryption object. */
  method EncryptAndAuthenticate(c: CCM, macSize: nat, iv: seq<byte>, header: seq<byte>, message: seq<byte>)
    returns (outcome: Outcome, ciphertext: seq<byte>, mac: seq<byte>)
    requires c.Valid() && c.forward && macSize <= 16 && |header| < LWORD && |message| < LWORD
    modifies c, c.m_buffer
    ensures c.Valid() && c.Unchanged(old(c.E), old(c.m_digestSize))
    ensures outcome == if old(c.m_state) == Start then BadState
                       else if 7 <= |iv| <= 13 && |message| <= MaxMessageLength(15 - |iv|) then Ok else InvalidArgument
    ensures outcome == Ok ==>
      var p := Selected(c.m_digestSize, iv);
      && Fits(p) && IsCipher(c.E, 16) && c.m_state == KeySet
      && ciphertext == Encrypt(c.E, p, message) && mac == TagBytes(c.E, p, header, message, macSize)
      && (macSize <= p.M ==> mac == Tag(c.E, p, header, message)[..macSize])
  {
    hide Absorb, CCM.Valid, Fits, IsCipher, Stream, MaxMessageLength, TagBytes, Tag, Sending;
    ciphertext, mac := [], [];
    outcome := StartMessage(c, iv, |header|, |message|);
    if outcome != Ok { return; }
    ghost var p := Selected(c.m_digestSize, iv);
    ciphertext, mac := SendWhole(c, macSize, header, message, c.E, p);
    if macSize <= p.M { TagPrefix(c.E, p, header, message, macSize); }
  }

  /** Update, ProcessString and TruncatedFinal on the whole strings. */
  method SendWhole(c: CCM, macSize: nat, header: seq<byte>, input: seq<byte>, ghost E: Cipher, ghost p: Parameters)
    returns (output: seq<byte>, mac: seq<byte>)
    requires Sending(c, E, p, |header|, |input|) && macSize <= 16
    requires c.m_state == IVSet && c.header == [] && c.message == []
    modifies c, c.m_buffer
    ensures Fits(p) && IsCipher(E, 16) && c.Valid() && c.Unchanged(E, p.M) && c.m_state == KeySet
    ensures output == Encrypt(E, p, input) && mac == TagBytes(E, p, header, c.Plaintext(input, output), macSize)
  {
    hide Absorb, CCM.Valid, Fits, IsCipher, Stream, MaxMessageLength, TagBytes, Sending;
    SendingFits(c, E, p, |header|, |input|);
    output := UpdateAndProcess(c, header, input, E, p);
    mac := Finish(c, macSize, E, p);
  }

  /** Update and ProcessString on the whole strings. */
  method UpdateAndProcess(c: CCM, header: seq<byte>, input: seq<byte>, ghost E: Cipher, ghost p: Parameters) returns (output: seq<byte>)
    requires Sending(c, E, p, |header|, |input|) && Fits(p) && IsCipher(E, 16)
    requires c.m_state == IVSet && c.header == [] && c.message == []
    modifies c, c.m_buffer
    ensures Sending(c, E, p, |header|, |input|) && c.InMessage() && c.header == header
    ensures output == Encrypt(E, p, input) && c.message == c.Plaintext(input, output)
  {
    hide Absorb, CCM.Valid, Fits, IsCipher, Stream, MaxMessageLength, Sending;
    UpdateAccepted(c, header, input, E, p);
    output := FeedPart(c, input, E, p, |header|, |input|);
    assert [] + input == input && [] + output == output;
  }

  method UpdateAccepted(c: CCM, header: seq<byte>, ghost input: seq<byte>, ghost E: Cipher, ghost p: Parameters)
    requires Sending(c, E, p, |header|, |input|) && c.m_state == IVSet && c.header == [] && c.message == []
    modifies c, c.m_buffer
    ensures Sending(c, E, p, |header|, |input|) && c.m_state == IVSet && c.header == header && c.message == []
  {
    hide Absorb, CCM.Valid, Fits, IsCipher, MaxMessageLength;
    assert [] + header == header;
    var _ := c.Update(header);
  }

  /** DecryptAndVerify, by a decryption object. */
  method DecryptAndVerify(c: CCM, mac: seq<byte>, iv: seq<byte>, header: seq<byte>, ciphertext: seq<byte>)
    returns (outcome: Outcome, message: seq<byte>, verified: bool)
    requires c.Valid() && !c.forward && |header| < LWORD && |ciphertext| < LWORD
    modifies c, c.m_buffer
    ensures c.Valid() && c.Unchanged(old(c.E), old(c.m_digestSize))
    ensures outcome == if old(c.m_state) == Start then BadState
                       else if 7 <= |iv| <= 13 && |ciphertext| <= MaxMessageLength(15 - |iv|) && |mac| <= c.m_digestSize then Ok else InvalidArgument
    ensures outcome == Ok ==>
      var p := Selected(c.m_digestSize, iv);
      && Fits(p) && IsCipher(c.E, 16) && c.m_state == KeySet
      && message == Encrypt(c.E, p, ciphertext) && verified == (mac == Tag(c.E, p, header, message)[..|mac|])
  {
    hide Absorb, CCM.Valid, Fits, IsCipher, Stream, MaxMessageLength, Tag, TagBytes, Sending, Encrypt;
    message, verified := [], false;
    outcome := StartMessage(c, iv, |header|, |ciphertext|);
    if outcome != Ok { return; }
    ghost var E, p := c.E, Selected(c.m_digestSize, iv);
    SendingFits(c, E, p, |header|, |ciphertext|);
    message := UpdateAndProcess(c, header, ciphertext, E, p);
    KnownDigest(c, E, p, |header|, |ciphertext|);
    KnownFits(c, E, p, |header|, |ciphertext|);
    if |mac| > c.m_digestSize {
      EndsValid(c, E, p, |header|, |ciphertext|);
      return InvalidArgument, message, false;
    }
    var digest := Finish(c, |mac|, E, p);
    TagPrefix(E, p, header, message, |mac|);
    verified := mac == digest;
  }

  lemma KnownDigest(c: CCM, E: Cipher, p: Parameters, headerLength: nat, messageLength: nat)
    requires Sending(c, E, p, headerLength, messageLength)
    ensures c.m_digestSize == p.M
  {
  }

  lemma KnownFits(c: CCM, E: Cipher, p: Parameters, headerLength: nat, messageLength: nat)
    requires Sending(c, E, p, headerLength, messageLength)
    ensures p.M <= 16
  {
    hide Absorb, InitialCounter, B0, HeaderPrefix, Pad;
    SendingFits(c, E, p, headerLength, messageLength);
  }

  lemma EndsValid(c: CCM, E: Cipher, p: Parameters, headerLength: nat, messageLength: nat)
    requires Sending(c, E, p, headerLength, messageLength)
    ensures c.Valid() && c.Unchanged(E, p.M)
  {
  }

  /** A whole message with header and message each in any chunks, in either direction. */
  method InChunks(c: CCM, iv: seq<byte>, headerParts: seq<seq<byte>>, parts: seq<seq<byte>>) returns (output: seq<byte>, mac: seq<byte>)
    requires c.Valid() && c.m_state != Start && 7 <= |iv| <= 13
    requires |Flatten(headerParts)| < LWORD && |Flatten(parts)| <= MaxMessageLength(15 - |iv|)
    modifies c, c.m_buffer
    ensures c.Valid() && c.Unchanged(old(c.E), old(c.m_digestSize)) && c.m_state == KeySet
    ensures var p := Selected(c.m_digestSize, iv);
      && Fits(p) && IsCipher(c.E, 16)
      && output == Encrypt(c.E, p, Flatten(parts))
      && mac == Tag(c.E, p, Flatten(headerParts), c.Plaintext(Flatten(parts), output))
  {
    hide Absorb, CCM.Valid, Fits, IsCipher, Stream, MaxMessageLength, Tag, Sending, Encrypt, Flatten;
    MaxBelowWord(15 - |iv|);
    var outcome := StartMessage(c, iv, |Flatten(headerParts)|, |Flatten(parts)|);
    output, mac := SendInChunks(c, headerParts, parts, c.E, Selected(c.m_digestSize, iv));
  }

  method SendInChunks(c: CCM, headerParts: seq<seq<byte>>, parts: seq<seq<byte>>, ghost E: Cipher, ghost p: Parameters)
    returns (output: seq<byte>, mac: seq<byte>)
    requires Sending(c, E, p, |Flatten(headerParts)|, |Flatten(parts)|)
    requires c.m_state == IVSet && c.header == [] && c.message == []
    modifies c, c.m_buffer
    ensures Fits(p) && IsCipher(E, 16) && c.Valid() && c.Unchanged(E, p.M) && c.m_state == KeySet
    ensures output == Encrypt(E, p, Flatten(parts)) && mac == Tag(E, p, Flatten(headerParts), c.Plaintext(Flatten(parts), output))
  {
    hide Absorb, CCM.Valid, Fits, IsCipher, Stream, MaxMessageLength, TagBytes, Sending, Encrypt, Flatten;
    SendingFits(c, E, p, |Flatten(headerParts)|, |Flatten(parts)|);
    FeedHeader(c, headerParts, E, p, |Flatten(parts)|);
    output := FeedMessage(c, parts, E, p);
    KnownDigest(c, E, p, |c.header|, |Flatten(parts)|);
    KnownFits(c, E, p, |c.header|, |Flatten(parts)|);
    mac := Finish(c, c.m_digestSize, E, p);
  }

  /** What one side sends in any chunks, the other recovers in any other chunks, with the same tag. */
  method RoundTrip(sender: CCM, receiver: CCM, iv: seq<byte>, headerParts: seq<seq<byte>>, headerParts': seq<seq<byte>>, parts: seq<seq<byte>>, cuts: seq<nat>)
    returns (message: seq<byte>, sent: seq<byte>, received: seq<byte>)
    requires sender != receiver && sender.m_buffer != receiver.m_buffer
    requires sender.Valid() && receiver.Valid() && sender.forward && !receiver.forward
    requires sender.m_state != Start && receiver.m_state != Start
    requires sender.E == receiver.E && sender.m_digestSize == receiver.m_digestSize
    requires 7 <= |iv| <= 13 && Flatten(headerParts) == Flatten(headerParts') && |Flatten(headerParts)| < LWORD
    requires |Flatten(parts)| <= MaxMessageLength(15 - |iv|)
    modifies sender, receiver, sender.m_buffer, receiver.m_buffer
    ensures message == Flatten(parts) && received == sent
  {
    hide Absorb, CCM.Valid, Fits, IsCipher, Stream, MaxMessageLength, Tag, Encrypt, Flatten;
    var ciphertext;
    ciphertext, sent := InChunks(sender, iv, headerParts, parts);
    ghost var p := Selected(sender.m_digestSize, iv);
    EncryptTwice(sender.E, p, Flatten(parts));
    CutFlattens(ciphertext, cuts);
    var pieces := Cut(ciphertext, cuts);
    message, received := InChunks(receiver, iv, headerParts', pieces);
  }

  /** What EncryptAndAuthenticate makes, DecryptAndVerify accepts and returns, for every tag length. */
  method SealThenOpen(sender: CCM, receiver: CCM, macSize: nat, iv: seq<byte>, header: seq<byte>, message: seq<byte>)
    returns (outcome: Outcome, recovered: seq<byte>, verified: bool)
    requires sender != receiver && sender.m_buffer != receiver.m_buffer
    requires sender.Valid() && receiver.Valid() && sender.forward && !receiver.forward && receiver.m_state != Start
    requires sender.E == receiver.E && sender.m_digestSize == receiver.m_digestSize && macSize <= sender.m_digestSize <= 16
    requires |header| < LWORD && |message| < LWORD
    modifies sender, receiver, sender.m_buffer, receiver.m_buffer
    ensures outcome == if old(sender.m_state) == Start then BadState
                       else if 7 <= |iv| <= 13 && |message| <= MaxMessageLength(15 - |iv|) then Ok else InvalidArgument
    ensures outcome == Ok ==> recovered == message && verified
  {
    hide Absorb, CCM.Valid, Fits, IsCipher, Stream, MaxMessageLength, Tag, Encrypt;
    var ciphertext, mac;
    outcome, ciphertext, mac := EncryptAndAuthenticate(sender, macSize, iv, header, message);
    recovered, verified := [], false;
    if outcome != Ok { return; }
    EncryptTwice(sender.E, Selected(sender.m_digestSize, iv), message);
    outcome, recovered, verified := DecryptAndVerify(receiver, mac, iv, header, ciphertext);
  }
}
