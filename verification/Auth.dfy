/** Signing and verifying a message, over any signature scheme and any serialization. */
module Auth {
  import opened Types
  import Flood
  import FloodTheorems

  type SigningKey = seq<Byte>

  /** Ed25519 and bincode, as far as the network relies on them. */
  datatype Scheme = Scheme(
    headerBytes: Headers -> seq<Byte>,
    payloadBytes: Payload -> seq<Byte>,
    sign: (SigningKey, seq<Byte>) -> seq<Byte>,
    check: (Key, seq<Byte>, seq<Byte>) -> bool,
    keyOf: SigningKey -> Key)
  {
    /** A signature has 64 bytes and is accepted under the matching key. */
    ghost predicate Correct() {
      forall sk: SigningKey, bytes: seq<Byte> :: |sign(sk, bytes)| == 64 && check(keyOf(sk), bytes, sign(sk, bytes))
    }

    /** Header bytes say where they end, and payload bytes say what they stand for. */
    ghost predicate SelfDelimiting() {
      && (forall g: Headers, h: Headers, x: seq<Byte>, y: seq<Byte> ::
            headerBytes(g) + x == headerBytes(h) + y ==> g == h && x == y)
      && (forall p: Payload, q: Payload :: payloadBytes(p) == payloadBytes(q) ==> p == q)
    }

    /** What is signed: the headers without a signature, then the payload. */
    function Signable(m: Message): seq<Byte> {
      headerBytes(m.headers.(signature := [])) + payloadBytes(m.payload)
    }

    method Sign(m: Message, sk: SigningKey) returns (signed: Message)
      ensures signed == Signed(m, sk)
    {
      var bare := m.headers.(signature := []);
      var bytes := headerBytes(bare) + payloadBytes(m.payload);
      signed := m.(headers := m.headers.(signature := sign(sk, bytes)));
    }

    function Signed(m: Message, sk: SigningKey): Message {
      m.(headers := m.headers.(signature := sign(sk, Signable(m))))
    }

    predicate Verifies(m: Message, key: Key) {
      |m.headers.signature| == 64 && check(key, Signable(m), m.headers.signature)
    }

    /** A signed message verifies; whatever signature it carried before leaves no trace. */
    lemma SignedVerifies(m: Message, sk: SigningKey, previous: seq<Byte>)
      requires Correct()
      ensures Verifies(Signed(m, sk), keyOf(sk))
      ensures Signed(m.(headers := m.headers.(signature := previous)), sk) == Signed(m, sk)
    {
      assert m.(headers := m.headers.(signature := previous)).headers.(signature := []) == m.headers.(signature := []);
      assert Signable(Signed(m, sk)) == Signable(m);
    }

    /** The signed bytes determine everything but the last hop and the signature itself. */
    lemma SignableDetermines(m: Message, n: Message)
      requires SelfDelimiting()
      ensures Signable(m) == Signable(n)
              <==> m.headers.(signature := []) == n.headers.(signature := []) && m.payload == n.payload
    {}

    /** Under one key a signature is accepted for one text at most. */
    ghost predicate Binding() {
      forall key: Key, x: seq<Byte>, y: seq<Byte>, signature: seq<Byte> ::
        check(key, x, signature) && check(key, y, signature) ==> x == y
    }

    /** A signature that verifies for one message verifies for no other, but for the last hop. */
    lemma TamperingIsSeen(m: Message, n: Message, key: Key)
      requires Binding() && SelfDelimiting() && Verifies(m, key) && n.headers.signature == m.headers.signature
      ensures Verifies(n, key) <==> n.headers == m.headers && n.payload == m.payload
    {
      SignableDetermines(m, n);
      if n.headers.(signature := []) == m.headers.(signature := []) {
        assert n.headers == n.headers.(signature := []).(signature := n.headers.signature);
        assert m.headers == m.headers.(signature := []).(signature := m.headers.signature);
      }
    }

    /** A signature that does not have 64 bytes is never accepted. */
    lemma ShortSignatureFails(m: Message, key: Key)
      requires |m.headers.signature| != 64
      ensures !Verifies(m, key)
    {}

    /** The retry loop: a new id and time, signed again, verify; the bytes signed before do not return. */
    lemma RetryIsSigned(m: Message, sk: SigningKey, id: U64, time: U64)
      requires Correct() && SelfDelimiting() && id != m.headers.msgId
      ensures
        var again := Signed(m.(headers := m.headers.(msgId := id, time := time)), sk);
        Verifies(again, keyOf(sk)) && Signable(again) != Signable(Signed(m, sk))
    {
      var next := m.(headers := m.headers.(msgId := id, time := time));
      SignedVerifies(next, sk, []);
      SignableDetermines(Signed(next, sk), Signed(m, sk));
      assert Signed(next, sk).headers.(signature := []).msgId == id;
      assert Signed(m, sk).headers.(signature := []).msgId == m.headers.msgId;
    }
  }

  /** A chat message verifies at every hop of its flood exactly when it did at its origin. */
  lemma SignatureSurvivesFlood(sc: Scheme, key: Key, gs: seq<Flood.Tables>, m: Message, relay: Addr,
                               logs: map<Addr, seq<Message>>, es: seq<Flood.Event>, c: Flood.Copy)
    requires |gs| == |es| && c in Flood.All(FloodTheorems.AfterWith(gs, Flood.Start(m, relay, logs), es))
    ensures sc.Verifies(c.msg, key) <==> sc.Verifies(m, key)
  {
    FloodTheorems.CopiesKeepTheMessage(gs, m, relay, logs, es, c);
    assert sc.Signable(c.msg) == sc.Signable(m);
  }
}
