/** What a dialled session contributes to its requests: real peer entities, and material sliced out of
    the responder's answer. The request theorems applied to it. */
module Sessions {
  import opened Options
  import opened Bytes
  import opened Heads
  import opened Decoder
  import opened CanonicalMap
  import opened Slicer
  import opened Denotation
  import opened Entities
  import opened Peers
  import opened Envelopes
  import opened Recoding
  import opened Lookups

  const TOKEN: Blob := Ascii("system/capability/token")

  /** A peer's identity: its entity, filed under that entity's content hash. */
  function PeerIdentity(c: Crypto, pub: Blob, priv: Blob): Identity
  {
    Identity(ContentHash(c, PEER, PeerData(pub)), priv, Entity(c, PEER, PeerData(pub)))
  }

  datatype Keys = Keys(pub: Blob, priv: Blob)

  function Dialled(c: Crypto, own: Keys, other: Keys, capHash: Blob, mat: seq<Pair>): Setup
  {
    Setup(c, PeerIdentity(c, own.pub, own.priv), PeerIdentity(c, other.pub, other.priv), capHash, mat)
  }

  lemma PeerIdentityOk(c: Crypto, pub: Blob, priv: Blob)
    requires c.Sizes() && |pub| < TWO_64
    ensures IdentityOk(PeerIdentity(c, pub, priv)) && |PeerIdentity(c, pub, priv).hash| == 33
  {
    PeerDataComplete(pub);
    EntityDecodes(c, PEER, PeerData(pub));
  }

  /** The caller's own values fit their length words. */
  ghost predicate Fits(e: Exec, n: nat, capHash: Blob)
  {
    && Complete(e.params) && |capHash| < TWO_64 && (e.capHash.Some? ==> |e.capHash.value| < TWO_64)
    && |RequestId(e.tag, n)| < TWO_64 && |e.uri| < TWO_64 && |e.op| < TWO_64
    && |e.targets| < TWO_64 && (forall i :: 0 <= i < |e.targets| ==> |e.targets[i]| < TWO_64)
    && |e.excludes| < TWO_64 && (forall i :: 0 <= i < |e.excludes| ==> |e.excludes[i]| < TWO_64)
  }

  /** Every request of a dialled session meets the standing premises. */
  lemma DialledReady(c: Crypto, own: Keys, other: Keys, capHash: Blob, mat: seq<Pair>, e: Exec, n: nat)
    requires c.Sizes() && |own.pub| < TWO_64 && |other.pub| < TWO_64
    requires AllComplete(mat) && |mat| < TWO_64 - 3 && Fits(e, n, capHash)
    ensures Ready(Dialled(c, own, other, capHash, mat), e, n)
  {
    PeerIdentityOk(c, own.pub, own.priv);
    PeerIdentityOk(c, other.pub, other.priv);
  }

  /** Every key is a byte string under the encoder's own head, as a canonical responder files it. */
  ghost predicate KeyedByHash(mat: seq<Pair>)
  {
    forall p :: p in mat ==> exists x :: |x| < TWO_64 && p.k == Bstr(x)
  }

  lemma KeyedByHashNoAlias(mat: seq<Pair>, h: Blob)
    requires KeyedByHash(mat)
    ensures NoAlias(mat, h)
  {
    forall k | Occurs(mat, k) ensures !Alias(k, h) {
      var i := OccursAt(mat, k);
      assert mat[i] in mat;
      var x :| |x| < TWO_64 && k == Bstr(x);
      BstrNames(x, h);
    }
  }

  ghost predicate IsDialled(s: Setup, own: Keys, other: Keys)
  {
    && |own.pub| < TWO_64 && |other.pub| < TWO_64
    && s == Dialled(s.crypto, own, other, s.capHash, s.mat)
  }

  /** The public key of the peer whose address the request files its author under. */
  function FiledPub(own: Keys, other: Keys, e: Exec): Blob
  {
    if e.misKeyAuthor || !e.impostorIdentity then own.pub else other.pub
  }

  /** What the two addresses are hashes of: a signature entity and a peer entity, never the same. */
  lemma FiledBases(s: Setup, own: Keys, other: Keys, e: Exec, n: nat)
    requires IsDialled(s, own, other) && s.crypto.Sizes()
    ensures var sig, peer := EntityBasis(SIGNATURE, SignatureData(s, e, n)),
                             EntityBasis(PEER, PeerData(FiledPub(own, other, e)));
      && sig != peer
      && (SignatureHash(s, e, n) == FiledHash(s, e) <==> s.crypto.sha256(sig) == s.crypto.sha256(peer))
  {
    PeerIdentityOk(s.crypto, own.pub, own.priv);
    PeerIdentityOk(s.crypto, other.pub, other.priv);
    SignatureComplete(s, e, n);
    PeerDataComplete(FiledPub(own, other, e));
    assert |PEER| == 11 && |SIGNATURE| == 16;
    BasisInjective(SIGNATURE, SignatureData(s, e, n), PEER, PeerData(FiledPub(own, other, e)));
    TailsEqual(s.crypto.sha256(EntityBasis(SIGNATURE, SignatureData(s, e, n))),
               s.crypto.sha256(EntityBasis(PEER, PeerData(FiledPub(own, other, e)))));
  }

  lemma TailsEqual(x: Blob, y: Blob)
    ensures [0] + x == [0] + y <==> x == y
  {
    assert ([0] + x)[1..] == x && ([0] + y)[1..] == y;
  }

  /** For a dialled session whose material is keyed by content hashes, in every request and whatever the
      material repeats: the receiver finds the filed entity at the filed address, unless the hash of this
      request's own signature collides with the hash of that peer entity; then it finds the signature. */
  lemma DialledSubstitutes(s: Setup, own: Keys, other: Keys, e: Exec, n: nat)
    requires IsDialled(s, own, other) && s.crypto.Sizes() && Fits(e, n, s.capHash)
    requires AllComplete(s.mat) && |s.mat| < TWO_64 - 3 && KeyedByHash(s.mat)
    ensures Complete(Request(s, e, n)) && Complete(FiledEntity(s, e)) && Complete(SignaturePair(s, e, n).v)
    ensures var sig, peer := EntityBasis(SIGNATURE, SignatureData(s, e, n)),
                             EntityBasis(PEER, PeerData(FiledPub(own, other, e)));
      && sig != peer
      && ResolvedAt(s, e, n, FiledHash(s, e))
         == if s.crypto.sha256(sig) == s.crypto.sha256(peer) then Some(ValueOf(SignaturePair(s, e, n).v))
            else Some(ValueOf(FiledEntity(s, e)))
  {
    DialledReady(s.crypto, own, other, s.capHash, s.mat, e, n);
    AuthorSubstitution(s, e, n);
    KeyedByHashNoAlias(s.mat, FiledHash(s, e));
    FiledBases(s, own, other, e, n);
  }

  /** Slicing and replaying lose nothing on the way to the receiver: with material sliced out of an
      envelope whose included map was built from `ps`, every address the request does not file itself
      resolves as `ps` binds it. */
  lemma ReplayResolves(root: Blob, ps: seq<Pair>, s: Setup, e: Exec, n: nat, h: Blob)
    requires Complete(root) && AllComplete(ps) && |ps| < TWO_64
    requires RawIncluded(Envelope(root, CMap(ps))) == Entries(s.mat)
    requires Ready(s, e, n) && |h| < TWO_64
    requires h != SignatureHash(s, e, n) && h != FiledHash(s, e) && h != BOGUS_KEY
    ensures Complete(Request(s, e, n)) && ResolvedAt(s, e, n, h) == BoundAt(ps, h)
  {
    CMapComplete(ps);
    EnvelopeSlices(root, CMap(ps));
    RawOfCMap(ps);
    assert s.mat == Canonical(ps);
    ForwardedResolves(s, e, n, h);
    CanonicalBindsAlike(ps, h);
  }

  lemma BoundAsDecoded(ps: seq<Pair>, h: Blob)
    requires AllComplete(ps) && |ps| < TWO_64 && NamesApart(ps)
    ensures BoundAt(ps, h) == Path(Map(MapOf(Bindings(ps))), [Hex(h)])
  {
    SameMaps(ps, ps);
    PathOne(MapOf(Bindings(ps)), Hex(h));
  }

  /** What a receiver of the answer itself would read in its included map. */
  lemma IncludedAsSent(env: Blob, mat: seq<Pair>, h: Blob)
    requires IsMap(env) && RawIncluded(env) == Entries(mat) && AllComplete(mat) && |mat| < TWO_64
    requires NamesApart(TopEntries(env)) && NamesApart(mat)
    ensures Path(Dec(env, 0).value, [Ascii("included"), Hex(h)]) == BoundAt(mat, h)
  {
    var m, raw := Dec(env, 0).value.m, RawField(env, Ascii("included"));
    HeaderIsHead(env);
    LabelsAreNotHex();
    RawFieldIsDecoded(env, Ascii("included"));
    BoundAsDecoded(mat, h);
    if raw.At? {
      SlicedEntries(raw.raw);
      TopMap(raw.raw);
      PathTwo(m, Ascii("included"), Hex(h));
    } else {
      assert mat == [];
    }
  }

  /** The same for any answer, however it was written: with material sliced out of a decodable envelope
      in which no two entries have one decoded name, every address the request does not file itself
      resolves as in that envelope's own decoded included map. */
  lemma AnyAnswerResolves(env: Blob, s: Setup, e: Exec, n: nat, h: Blob)
    requires IsMap(env) && RawIncluded(env) == Entries(s.mat) && Ready(s, e, n) && |h| < TWO_64
    requires NamesApart(TopEntries(env)) && NamesApart(s.mat)
    requires h != SignatureHash(s, e, n) && h != FiledHash(s, e) && h != BOGUS_KEY
    ensures Complete(Request(s, e, n))
    ensures ResolvedAt(s, e, n, h) == Path(Dec(env, 0).value, [Ascii("included"), Hex(h)])
  {
    ForwardedResolves(s, e, n, h);
    IncludedAsSent(env, s.mat, h);
  }

  lemma CanonicalBindsAlike(ps: seq<Pair>, h: Blob)
    requires AllComplete(ps) && |ps| < TWO_64
    ensures AllComplete(Canonical(ps)) && BoundAt(Canonical(ps), h) == BoundAt(ps, h)
  {
    CanonicalComplete(ps);
    CanonicalIdempotent(ps);
  }

  /** Material that spells the filed address as a text key decides what the receiver finds there, in
      every session. */
  lemma SpelledAddressWins(s: Setup, e: Exec, n: nat, v: Blob)
    requires Ready(s, e, n) && s.mat == [Pair(Txt(Hex(FiledHash(s, e))), v)]
    requires |FiledHash(s, e)| < TWO_63
    ensures Complete(v) && Complete(Request(s, e, n))
    ensures ResolvedAt(s, e, n, FiledHash(s, e)) == Some(ValueOf(v))
  {
    var h, k := FiledHash(s, e), Txt(Hex(FiledHash(s, e)));
    StringComplete(Hex(h));
    StringComplete(h);
    OnlyEntry(k, v);
    assert s.mat[0] == Pair(k, v);
    assert Names(k, Hex(h)) && LastNamed(s.mat, Hex(h), k);
    DecodedBinding(s.mat, Hex(h), k);
    assert ValueOf(k).Text? && ValueOf(Bstr(h)).Bytes?;
    AuthorSubstitution(s, e, n);
  }

  lemma OnlyEntry(key: Blob, v: Blob)
    ensures forall k :: FirstValue([Pair(key, v)], k) == if k == key then Some(v) else None
  {
    var p := Pair(key, v);
    forall k ensures FirstValue([p], k) == if k == key then Some(v) else None {
      WithKeyAppend([], p, k);
      assert [] + [p] == [p];
    }
  }

  // ---------- the premises can be met ----------

  const OWN := Keys(Fill(32, 1), Fill(32, 11))
  const OTHER := Keys(Fill(32, 2), Fill(32, 12))

  function TokenData(): Blob { CMap([]) }

  /** A hash that tells the two peers, the token and everything else apart. */
  function PlainHash(x: Blob): Blob
  {
    if x == EntityBasis(PEER, PeerData(OWN.pub)) then Fill(32, 1)
    else if x == EntityBasis(PEER, PeerData(OTHER.pub)) then Fill(32, 2)
    else if x == EntityBasis(TOKEN, TokenData()) then Fill(32, 4)
    else Fill(32, 3)
  }

  function PlainCrypto(): (c: Crypto)
    ensures c.Sizes()
  {
    Crypto(PlainHash, (_, _) => Fill(64, 5))
  }

  function TokenHash(): Blob { ContentHash(PlainCrypto(), TOKEN, TokenData()) }

  function PlainSession(mat: seq<Pair>): Setup
  {
    Dialled(PlainCrypto(), OWN, OTHER, TokenHash(), mat)
  }

  /** Both mis-keying arms. */
  function PlainExec(): Exec
  {
    Exec([], [], [], TokenData(), [], [], true, false, true, false, None)
  }

  lemma TokenComplete()
    ensures Complete(TokenData()) && Complete(Entity(PlainCrypto(), TOKEN, TokenData()))
    ensures var m := ValueOf(Entity(PlainCrypto(), TOKEN, TokenData()));
      m.Map? && Ascii("type") in m.m && m.m[Ascii("type")] == Text(TOKEN)
  {
    CMapComplete([]);
    EntityDecodes(PlainCrypto(), TOKEN, TokenData());
  }

  lemma PlainFits()
    ensures Fits(PlainExec(), 1, TokenHash())
  {
    TokenComplete();
    assert |TokenHash()| == 33;
    assert |RequestId([], 1)| < TWO_64;
  }

  lemma PlainReady(mat: seq<Pair>)
    requires AllComplete(mat) && |mat| == 1
    ensures Ready(PlainSession(mat), PlainExec(), 1)
  {
    PlainFits();
    DialledReady(PlainCrypto(), OWN, OTHER, TokenHash(), mat, PlainExec(), 1);
  }

  lemma BasisTypes(t: Blob, d: Blob, u: Blob, d': Blob)
    requires Complete(d) && Complete(d') && |t| < TWO_64 && |u| < TWO_64 && |t| != |u|
    ensures EntityBasis(t, d) != EntityBasis(u, d')
  {
    BasisInjective(t, d, u, d');
  }

  /** The addresses in use are all different. */
  lemma PlainAddresses(mat: seq<Pair>)
    ensures var s := PlainSession(mat);
      && SignatureHash(s, PlainExec(), 1) == [0] + Fill(32, 3)
      && s.self.hash == [0] + Fill(32, 1) && TokenHash() == [0] + Fill(32, 4)
  {
    var s, e := PlainSession(mat), PlainExec();
    PeerIdentityOk(s.crypto, OWN.pub, OWN.priv);
    PeerIdentityOk(s.crypto, OTHER.pub, OTHER.priv);
    SignatureComplete(s, e, 1);
    PeerDataComplete(OWN.pub);
    PeerDataComplete(OTHER.pub);
    TokenComplete();
    assert |PEER| == 11 && |SIGNATURE| == 16 && |TOKEN| == 23;
    BasisTypes(SIGNATURE, SignatureData(s, e, 1), PEER, PeerData(OWN.pub));
    BasisTypes(SIGNATURE, SignatureData(s, e, 1), PEER, PeerData(OTHER.pub));
    BasisTypes(SIGNATURE, SignatureData(s, e, 1), TOKEN, TokenData());
    BasisTypes(TOKEN, TokenData(), PEER, PeerData(OWN.pub));
    BasisTypes(TOKEN, TokenData(), PEER, PeerData(OTHER.pub));
  }

  lemma FillsDiffer(i: Byte, j: Byte)
    requires i != j
    ensures [0] + Fill(32, i) != [0] + Fill(32, j)
  {
    assert ([0] + Fill(32, i))[1] != ([0] + Fill(32, j))[1];
  }

  /** One entry filed under a content hash. */
  lemma OneFiled(x: Blob, v: Blob)
    requires |x| < TWO_64 && Complete(v)
    ensures var mat := [Pair(Bstr(x), v)];
      && AllComplete(mat) && KeyedByHash(mat) && FirstValue(mat, Bstr(x)) == Some(v)
      && forall h :: |h| < TWO_64 && h != x ==> !Occurs(mat, Bstr(h))
  {
    StringComplete(x);
    OnlyEntry(Bstr(x), v);
    forall h | |h| < TWO_64 && h != x ensures Bstr(h) != Bstr(x) {
      BstrDiffers(x, h);
    }
  }

  function TokenMaterial(): seq<Pair>
  {
    [Pair(Bstr(TokenHash()), Entity(PlainCrypto(), TOKEN, TokenData()))]
  }

  lemma TokenMaterialFacts()
    ensures var mat := TokenMaterial();
      && AllComplete(mat) && KeyedByHash(mat) && FirstValue(mat, Bstr(TokenHash())).Some?
      && !Occurs(mat, Bstr(BOGUS_KEY)) && NoAlias(mat, BOGUS_KEY)
      && NoAlias(mat, PeerIdentity(PlainCrypto(), OWN.pub, OWN.priv).hash)
  {
    TokenComplete();
    PlainAddresses([]);
    FillsDiffer(4, 0xA7);
    OneFiled(TokenHash(), Entity(PlainCrypto(), TOKEN, TokenData()));
    KeyedByHashNoAlias(TokenMaterial(), BOGUS_KEY);
    KeyedByHashNoAlias(TokenMaterial(), PeerIdentity(PlainCrypto(), OWN.pub, OWN.priv).hash);
  }

  lemma PlainAddressesDiffer(mat: seq<Pair>)
    ensures var s, e := PlainSession(mat), PlainExec();
      SignatureHash(s, e, 1) != s.self.hash && SignatureHash(s, e, 1) != BOGUS_KEY && s.self.hash != BOGUS_KEY
  {
    PlainAddresses(mat);
    FillsDiffer(3, 1);
    FillsDiffer(3, 0xA7);
    FillsDiffer(1, 0xA7);
  }

  /** A dialled session forwarding one token under its content hash, and a request with both mis-keying
      arms, that meet all premises of the request theorems at once. */
  lemma PremisesMet() returns (s: Setup, e: Exec)
    ensures s == Dialled(PlainCrypto(), OWN, OTHER, TokenHash(), TokenMaterial())
    ensures Ready(s, e, 1) && e.misKeyAuthor && !e.impostorIdentity && e.misKeyCapability
    ensures SignatureHash(s, e, 1) != s.self.hash && NoAlias(s.mat, s.self.hash)
    ensures SignatureHash(s, e, 1) != BOGUS_KEY && FiledHash(s, e) != BOGUS_KEY
    ensures !Occurs(s.mat, Bstr(BOGUS_KEY)) && NoAlias(s.mat, BOGUS_KEY)
    ensures FirstValue(s.mat, Bstr(RealCap(s, e))).Some?
  {
    s, e := PlainSession(TokenMaterial()), PlainExec();
    TokenMaterialFacts();
    PlainReady(TokenMaterial());
    PlainAddressesDiffer(TokenMaterial());
  }

  lemma TokenIsNoPeer()
    ensures Complete(Entity(PlainCrypto(), PEER, PeerData(OTHER.pub)))
    ensures Complete(Entity(PlainCrypto(), TOKEN, TokenData()))
    ensures ValueOf(Entity(PlainCrypto(), TOKEN, TokenData()))
         != ValueOf(Entity(PlainCrypto(), PEER, PeerData(OTHER.pub)))
  {
    TokenComplete();
    PeerDataComplete(OTHER.pub);
    EntityDecodes(PlainCrypto(), PEER, PeerData(OTHER.pub));
    assert |PEER| == 11 && |TOKEN| == 23;
  }

  /** The token filed under the probe's own address, spelled as a text key. */
  function SpelledMaterial(): seq<Pair>
  {
    [Pair(Txt(Hex([0] + Fill(32, 1))), Entity(PlainCrypto(), TOKEN, TokenData()))]
  }

  lemma OneSpelled(name: Blob, v: Blob)
    requires |name| < TWO_64 && Complete(v)
    ensures AllComplete([Pair(Txt(name), v)])
  {
    StringComplete(name);
    OneComplete(Txt(name), v);
  }

  lemma OneComplete(k: Blob, v: Blob)
    requires Complete(k) && Complete(v)
    ensures AllComplete([Pair(k, v)])
  {}

  lemma SpelledReady()
    ensures Ready(PlainSession(SpelledMaterial()), PlainExec(), 1)
  {
    TokenComplete();
    OneSpelled(Hex([0] + Fill(32, 1)), Entity(PlainCrypto(), TOKEN, TokenData()));
    PlainReady(SpelledMaterial());
  }

  /** A dialled session's request whose mis-keyed author is not the impostor for its receiver. */
  lemma AliasDefeatsSubstitution() returns (s: Setup, e: Exec)
    ensures s == Dialled(PlainCrypto(), OWN, OTHER, TokenHash(), SpelledMaterial())
    ensures Ready(s, e, 1) && e.misKeyAuthor && SignatureHash(s, e, 1) != FiledHash(s, e)
    ensures Complete(Request(s, e, 1))
    ensures ResolvedAt(s, e, 1, FiledHash(s, e)) != Some(ValueOf(FiledEntity(s, e)))
  {
    s, e := PlainSession(SpelledMaterial()), PlainExec();
    SpelledReady();
    PlainAddressesDiffer(SpelledMaterial());
    PlainAddresses(SpelledMaterial());
    SpelledAddressWins(s, e, 1, Entity(PlainCrypto(), TOKEN, TokenData()));
    TokenIsNoPeer();
  }
}
