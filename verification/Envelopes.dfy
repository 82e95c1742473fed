/** Composing one authenticated request: root fields, signature, the included map with its
    mis-keying arms, and what the receiving decoder resolves the author to. */
module Envelopes {
  import opened Options
  import opened Bytes
  import opened Heads
  import opened Decoder
  import opened CanonicalMap
  import opened Slicer
  import opened Denotation
  import opened Arrays
  import opened Entities

  datatype Identity = Identity(hash: Blob, priv: Blob, ent: Blob)

  datatype Exec = Exec(
    tag: Blob, uri: Blob, op: Blob, params: Blob,
    targets: seq<Blob>, excludes: seq<Blob>,
    misKeyAuthor: bool, impostorIdentity: bool, misKeyCapability: bool, bogusCapAbsent: bool,
    capHash: Option<Blob>)

  /** What a request is made from besides its own arguments: the two identities, the session's
      capability hash and the forwarded material in use. */
  datatype Setup = Setup(crypto: Crypto, self: Identity, impostor: Identity, capHash: Blob, mat: seq<Pair>)

  const EXECUTE: Blob := Ascii("system/protocol/execute")
  const SIGNATURE: Blob := Ascii("system/signature")

  /** A hash-shaped address nothing is stored under. */
  const BOGUS_KEY: Blob := [0] + Fill(32, 0xA7)

  // ---------- the parts of a request ----------

  function Decimal(n: nat): Blob
  {
    if n < 10 then [48 + n] else Decimal(n / 10) + [48 + n % 10]
  }

  function RequestId(tag: Blob, n: nat): Blob
  {
    Ascii("arc-probe-") + tag + Ascii("-") + Decimal(n)
  }

  function Author(s: Setup, e: Exec): Identity
  {
    if e.impostorIdentity then s.impostor else s.self
  }

  function RealCap(s: Setup, e: Exec): Blob
  {
    if e.capHash.Some? then e.capHash.value else s.capHash
  }

  function AddressedCap(s: Setup, e: Exec): Blob
  {
    if e.misKeyCapability || e.bogusCapAbsent then BOGUS_KEY else RealCap(s, e)
  }

  function TxtAll(ss: seq<Blob>): (vs: seq<Blob>)
    ensures |vs| == |ss|
  {
    seq(|ss|, i requires 0 <= i < |ss| => Txt(ss[i]))
  }

  function ResourceFields(e: Exec): seq<Pair>
  {
    [Pair(Txt(Ascii("targets")), Arr(TxtAll(e.targets)))]
    + (if e.excludes == [] then [] else [Pair(Txt(Ascii("exclude")), Arr(TxtAll(e.excludes)))])
  }

  /** The root's fields, with the resource only when the request has targets. */
  function RootList(rid: Blob, uri: Blob, op: Blob, params: Blob, author: Blob, cap: Blob,
                    resource: Option<Blob>): seq<Pair>
  {
    [ Pair(Txt(Ascii("request_id")), rid),
      Pair(Txt(Ascii("uri")), uri),
      Pair(Txt(Ascii("operation")), op),
      Pair(Txt(Ascii("params")), params),
      Pair(Txt(Ascii("author")), author),
      Pair(Txt(Ascii("capability")), cap) ]
    + (if resource.None? then [] else [Pair(Txt(Ascii("resource")), resource.value)])
  }

  function Resource(e: Exec): Option<Blob>
  {
    if e.targets == [] then None else Some(CMap(ResourceFields(e)))
  }

  function RootFields(s: Setup, e: Exec, n: nat): seq<Pair>
  {
    RootList(Txt(RequestId(e.tag, n)), Txt(e.uri), Txt(e.op), e.params, Bstr(Author(s, e).hash),
             Bstr(AddressedCap(s, e)), Resource(e))
  }

  function RootData(s: Setup, e: Exec, n: nat): Blob
  {
    CMap(RootFields(s, e, n))
  }

  /** The address the request's author entry is filed under, and the entity filed there. */
  function FiledHash(s: Setup, e: Exec): Blob
  {
    if e.misKeyAuthor then s.self.hash else Author(s, e).hash
  }

  function FiledEntity(s: Setup, e: Exec): Blob
  {
    if e.misKeyAuthor then s.impostor.ent else Author(s, e).ent
  }

  function SigningKey(s: Setup, e: Exec): Blob
  {
    if e.misKeyAuthor then s.impostor.priv else Author(s, e).priv
  }

  function SignatureList(target: Blob, signer: Blob, signature: Blob): seq<Pair>
  {
    [ Pair(Txt(Ascii("target")), target),
      Pair(Txt(Ascii("signer")), signer),
      Pair(Txt(Ascii("algorithm")), Txt(Ascii("ed25519"))),
      Pair(Txt(Ascii("signature")), signature) ]
  }

  /** The signer named is the address the author entity is filed under. */
  function SignatureFields(s: Setup, e: Exec, rootHash: Blob): seq<Pair>
  {
    SignatureList(Bstr(rootHash), Bstr(FiledHash(s, e)), Bstr(s.crypto.sign(SigningKey(s, e), rootHash)))
  }

  function SignatureData(s: Setup, e: Exec, n: nat): Blob
  {
    CMap(SignatureFields(s, e, ContentHash(s.crypto, EXECUTE, RootData(s, e, n))))
  }

  function SignatureHash(s: Setup, e: Exec, n: nat): Blob
  {
    ContentHash(s.crypto, SIGNATURE, SignatureData(s, e, n))
  }

  /** The pairs of `ps` that are not filed under `k`. */
  function Without(ps: seq<Pair>, k: Blob): (qs: seq<Pair>)
    ensures |qs| <= |ps|
  {
    if ps == [] then []
    else Without(ps[..|ps| - 1], k) + (if ps[|ps| - 1].k == k then [] else [ps[|ps| - 1]])
  }

  /** The first entry under the real token's address, filed again under the bogus one. */
  function Again(ps: seq<Pair>, realCap: Blob): seq<Pair>
  {
    var token := FirstValue(ps, Bstr(realCap));
    if token.Some? then [Pair(Bstr(BOGUS_KEY), token.value)] else []
  }

  function Refiled(s: Setup, e: Exec): seq<Pair>
  {
    if e.misKeyCapability then Again(s.mat, RealCap(s, e)) else []
  }

  function SignaturePair(s: Setup, e: Exec, n: nat): Pair
  {
    Pair(Bstr(SignatureHash(s, e, n)), Entity(s.crypto, SIGNATURE, SignatureData(s, e, n)))
  }

  /** The signature, then either the forwarded material without our own address and the impostor
      at that address, or the author and the forwarded material. */
  function Filed(s: Setup, e: Exec): seq<Pair>
  {
    if e.misKeyAuthor then
      Without(s.mat, Bstr(s.self.hash)) + [Pair(Bstr(s.self.hash), s.impostor.ent)]
    else
      [Pair(Bstr(Author(s, e).hash), Author(s, e).ent)] + s.mat
  }

  function Included(s: Setup, e: Exec, n: nat): seq<Pair>
  {
    [SignaturePair(s, e, n)] + Filed(s, e) + Refiled(s, e)
  }

  function Request(s: Setup, e: Exec, n: nat): Blob
  {
    Envelope(Entity(s.crypto, EXECUTE, RootData(s, e, n)), CMap(Included(s, e, n)))
  }

  // ---------- the labels are distinct ----------

  ghost function RootLabels(resource: bool): seq<Blob>
  {
    [ Ascii("request_id"), Ascii("uri"), Ascii("operation"), Ascii("params"), Ascii("author"),
      Ascii("capability") ]
    + (if resource then [Ascii("resource")] else [])
  }

  lemma RootLabelled(rid: Blob, uri: Blob, op: Blob, params: Blob, author: Blob, cap: Blob,
                     resource: Option<Blob>)
    ensures Labelled(RootList(rid, uri, op, params, author, cap, resource), RootLabels(resource.Some?))
  {
    assert Ascii("params")[0] != Ascii("author")[0];
    assert Ascii("request_id")[0] != Ascii("capability")[0];
  }

  lemma ResourceLabelled(e: Exec)
    ensures Labelled(ResourceFields(e), [Ascii("targets")] + (if e.excludes == [] then [] else [Ascii("exclude")]))
  {
    assert Ascii("targets")[0] != Ascii("exclude")[0];
  }

  const SIGNATURE_LABELS: seq<Blob> := [Ascii("target"), Ascii("signer"), Ascii("algorithm"), Ascii("signature")]

  lemma SignatureLabelled(target: Blob, signer: Blob, signature: Blob)
    ensures Labelled(SignatureList(target, signer, signature), SIGNATURE_LABELS)
  {
    assert Ascii("target")[0] != Ascii("signer")[0];
    assert Ascii("algorithm")[0] != Ascii("signature")[0];
  }

  lemma EnvelopeLabelled(root: Blob, included: Blob)
    ensures Labelled([Pair(Txt(Ascii("root")), root), Pair(Txt(Ascii("included")), included)],
                     [Ascii("root"), Ascii("included")])
  {}

  // ---------- composing a request ----------

  method ComposeResource(encoder: Encoder, e: Exec) returns (resource: Option<Blob>)
    requires |e.targets| < TWO_64 && |e.excludes| < TWO_64
    modifies encoder
    ensures resource == Resource(e)
    ensures encoder.dedupDropped == old(encoder.dedupDropped)
  {
    if |e.targets| == 0 {
      return None;
    }
    var tv := WriteArr(TxtAll(e.targets));
    var rf := SliceOf([Pair(Txt(Ascii("targets")), tv)]);
    if |e.excludes| > 0 {
      var ev := WriteArr(TxtAll(e.excludes));
      rf := Append(rf, Pair(Txt(Ascii("exclude")), ev));
    }
    assert rf[..] == ResourceFields(e);
    ResourceLabelled(e);
    LabelledDistinct(rf[..], [Ascii("targets")] + (if e.excludes == [] then [] else [Ascii("exclude")]));
    DistinctKeepsAll(rf[..]);
    var encoded := encoder.Encode(rf);
    return Some(encoded);
  }

  method ComposeRoot(encoder: Encoder, e: Exec, rid: Blob, authorHash: Blob, cap: Blob) returns (data: Blob)
    requires |e.targets| < TWO_64 && |e.excludes| < TWO_64
    modifies encoder
    ensures data == CMap(RootList(Txt(rid), Txt(e.uri), Txt(e.op), e.params, Bstr(authorHash), Bstr(cap), Resource(e)))
    ensures encoder.dedupDropped == old(encoder.dedupDropped)
  {
    var fields := SliceOf([
      Pair(Txt(Ascii("request_id")), Txt(rid)),
      Pair(Txt(Ascii("uri")), Txt(e.uri)),
      Pair(Txt(Ascii("operation")), Txt(e.op)),
      Pair(Txt(Ascii("params")), e.params),
      Pair(Txt(Ascii("author")), Bstr(authorHash)),
      Pair(Txt(Ascii("capability")), Bstr(cap)) ]);
    var resource := ComposeResource(encoder, e);
    if resource.Some? {
      fields := Append(fields, Pair(Txt(Ascii("resource")), resource.value));
    }
    ghost var list := RootList(Txt(rid), Txt(e.uri), Txt(e.op), e.params, Bstr(authorHash), Bstr(cap), resource);
    assert fields[..] == list;
    RootLabelled(Txt(rid), Txt(e.uri), Txt(e.op), e.params, Bstr(authorHash), Bstr(cap), resource);
    LabelledDistinct(list, RootLabels(resource.Some?));
    DistinctKeepsAll(list);
    data := encoder.Encode(fields);
  }

  method ComposeSignature(encoder: Encoder, target: Blob, signer: Blob, signature: Blob) returns (data: Blob)
    modifies encoder
    ensures data == CMap(SignatureList(Bstr(target), Bstr(signer), Bstr(signature)))
    ensures encoder.dedupDropped == old(encoder.dedupDropped)
  {
    var fields := [
      Pair(Txt(Ascii("target")), Bstr(target)),
      Pair(Txt(Ascii("signer")), Bstr(signer)),
      Pair(Txt(Ascii("algorithm")), Txt(Ascii("ed25519"))),
      Pair(Txt(Ascii("signature")), Bstr(signature)) ];
    assert fields == SignatureList(Bstr(target), Bstr(signer), Bstr(signature));
    SignatureLabelled(Bstr(target), Bstr(signer), Bstr(signature));
    LabelledDistinct(fields, SIGNATURE_LABELS);
    DistinctKeepsAll(fields);
    data := encoder.EncodeArguments(fields);
  }

  /** The signed root: its data, and the signature entity under its content hash. */
  method ComposeSigned(encoder: Encoder, s: Setup, e: Exec, n: nat) returns (rootData: Blob, sig: Pair)
    requires |e.targets| < TWO_64 && |e.excludes| < TWO_64
    modifies encoder
    ensures rootData == RootData(s, e, n) && sig == SignaturePair(s, e, n)
    ensures encoder.dedupDropped == old(encoder.dedupDropped)
  {
    var author, priv, signer := s.self, s.self.priv, s.self.hash;
    if e.impostorIdentity {
      author, priv, signer := s.impostor, s.impostor.priv, s.impostor.hash;
    }
    if e.misKeyAuthor {
      priv, signer := s.impostor.priv, s.self.hash;
    }
    var cap := if e.capHash.Some? then e.capHash.value else s.capHash;
    if e.misKeyCapability || e.bogusCapAbsent {
      cap := BOGUS_KEY;
    }
    rootData := ComposeRoot(encoder, e, RequestId(e.tag, n), author.hash, cap);
    assert rootData == RootData(s, e, n);
    var rootHash := ContentHash(s.crypto, EXECUTE, rootData);
    var sigData := ComposeSignature(encoder, rootHash, signer, s.crypto.sign(priv, rootHash));
    assert sigData == SignatureData(s, e, n);
    sig := Pair(Bstr(ContentHash(s.crypto, SIGNATURE, sigData)), Entity(s.crypto, SIGNATURE, sigData));
  }

  /** Appends everything not filed under our own address, counting what it displaces. */
  method Substitute(start: array<Pair>, mat: array<Pair>, own: Blob, ent: Blob)
    returns (inc: array<Pair>, dropped: nat)
    ensures fresh(inc) && inc[..] == start[..] + Without(mat[..], Bstr(own)) + [Pair(Bstr(own), ent)]
    ensures dropped == |WithKey(mat[..], Bstr(own))|
  {
    ghost var first, ps := start[..], mat[..];
    dropped := 0;
    inc := start;
    var i := 0;
    while i < mat.Length
      invariant 0 <= i <= mat.Length
      invariant inc[..] == first + Without(ps[..i], Bstr(own))
      invariant dropped == |WithKey(ps[..i], Bstr(own))|
    {
      assert ps[..i + 1][..i] == ps[..i];
      var p := mat[i];
      if p.k == Bstr(own) {
        dropped := dropped + 1;
      } else {
        inc := Append(inc, p);
      }
      i := i + 1;
    }
    assert ps[..i] == ps;
    inc := Append(inc, Pair(Bstr(own), ent));
  }

  lemma FirstAt(ps: seq<Pair>, i: nat, realCap: Blob)
    requires i < |ps| && ps[i].k == Bstr(realCap) && WithKey(ps[..i], Bstr(realCap)) == []
    ensures Again(ps, realCap) == [Pair(Bstr(BOGUS_KEY), ps[i].v)]
  {
    var k := Bstr(realCap);
    assert ps[..i + 1][..i] == ps[..i];
    assert ps == ps[..i + 1] + ps[i + 1..];
    WithKeyConcat(ps[..i + 1], ps[i + 1..], k);
  }

  lemma FirstNowhere(ps: seq<Pair>, i: nat, realCap: Blob)
    requires i < |ps| && ps[i].k != Bstr(realCap) && WithKey(ps[..i], Bstr(realCap)) == []
    ensures WithKey(ps[..i + 1], Bstr(realCap)) == []
  {
    assert ps[..i + 1][..i] == ps[..i];
  }

  method Refile(inc: array<Pair>, mat: array<Pair>, realCap: Blob) returns (more: array<Pair>)
    ensures more == inc || fresh(more)
    ensures more[..] == inc[..] + Again(mat[..], realCap)
  {
    ghost var ps := mat[..];
    var i := 0;
    while i < mat.Length
      invariant 0 <= i <= mat.Length
      invariant WithKey(ps[..i], Bstr(realCap)) == []
    {
      var p := mat[i];
      if p.k == Bstr(realCap) {
        FirstAt(ps, i, realCap);
        more := Append(inc, Pair(Bstr(BOGUS_KEY), p.v));
        return;
      }
      FirstNowhere(ps, i, realCap);
      i := i + 1;
    }
    assert ps[..i] == ps;
    more := inc;
  }

  /** The included list in append order, in a slice of its own, and the number of displaced entries
      when it substitutes. */
  method ComposeIncluded(s: Setup, e: Exec, sig: Pair, mat: array<Pair>) returns (inc: array<Pair>, dropped: nat)
    requires mat[..] == s.mat
    ensures fresh(inc) && inc[..] == [sig] + Filed(s, e) + Refiled(s, e)
    ensures e.misKeyAuthor ==> dropped == Displaced(s)
  {
    assert mat[..] == s.mat;
    dropped := 0;
    inc := SliceOf([sig]);
    if e.misKeyAuthor {
      inc, dropped := Substitute(inc, mat, s.self.hash, s.impostor.ent);
    } else {
      var author := if e.impostorIdentity then s.impostor else s.self;
      inc := Append(inc, Pair(Bstr(author.hash), author.ent));
      inc := AppendAll(inc, mat[..]);
    }
    assert inc[..] == [sig] + Filed(s, e);
    if e.misKeyCapability {
      inc := Refile(inc, mat, if e.capHash.Some? then e.capHash.value else s.capHash);
    }
  }

  /** Encodes the included list, sorting its slice, and the two-field envelope around it. */
  method Seal(encoder: Encoder, root: Blob, inc: array<Pair>) returns (env: Blob)
    requires inc.Length < TWO_64
    modifies encoder, inc
    ensures env == Envelope(root, CMap(old(inc[..])))
    ensures encoder.dedupDropped == old(encoder.dedupDropped) + Repeated(old(inc[..]))
  {
    var included := encoder.Encode(inc);
    var top := [Pair(Txt(Ascii("root")), root), Pair(Txt(Ascii("included")), included)];
    EnvelopeOrder(root, included);
    env := encoder.EncodeArguments(top);
  }

  /** How many forwarded entries sit at our own address. */
  function Displaced(s: Setup): nat
  {
    |WithKey(s.mat, Bstr(s.self.hash))|
  }

  /** How many pairs of a list the encoder drops. */
  function Repeated(ps: seq<Pair>): nat
  {
    |ps| - |Canonical(ps)|
  }

  /** The request and the session's new collision count, which was `last` before. */
  method Compose(encoder: Encoder, s: Setup, mat: array<Pair>, e: Exec, n: nat, last: nat)
    returns (env: Blob, collision: nat)
    requires |e.targets| < TWO_64 && |e.excludes| < TWO_64
    requires mat[..] == s.mat && |s.mat| < TWO_64 - 3
    modifies encoder
    ensures env == Request(s, e, n)
    ensures collision == if e.misKeyAuthor then Displaced(s) else last
    ensures encoder.dedupDropped == old(encoder.dedupDropped) + Repeated(Included(s, e, n))
  {
    var rootData, sig := ComposeSigned(encoder, s, e, n);
    var inc, dropped := ComposeIncluded(s, e, sig, mat);
    assert inc[..] == Included(s, e, n);
    IncludedLength(s, e, n);
    env := Seal(encoder, Entity(s.crypto, EXECUTE, rootData), inc);
    collision := if e.misKeyAuthor then dropped else last;
  }

  class Session {
    const crypto: Crypto
    const self: Identity
    const impostor: Identity
    const encoder: Encoder
    // Set once, when the session is dialled.
    const capHash: Blob
    const capMat: array<Pair>
    var sequence: nat
    var lastCollision: nat

    constructor (crypto: Crypto, self: Identity, impostor: Identity, encoder: Encoder,
                 capHash: Blob, capMat: array<Pair>)
      ensures this.crypto == crypto && this.self == self && this.impostor == impostor
      ensures this.encoder == encoder && this.capHash == capHash && this.capMat == capMat
      ensures sequence == 0 && lastCollision == 0
    {
      this.crypto, this.self, this.impostor, this.encoder := crypto, self, impostor, encoder;
      this.capHash, this.capMat := capHash, capMat;
      sequence, lastCollision := 0, 0;
    }

    function State(mat: seq<Pair>): Setup
    {
      Setup(crypto, self, impostor, capHash, mat)
    }

    /** The forwarded material in use: what the request brings along, or the session's own. */
    function InUse(given: array?<Pair>): array<Pair>
    {
      if given != null then given else capMat
    }

    /** One request, numbered one more than the last. The slice in use, whose elements are `st.mat`,
        and the session's own are left as they were by an encoder that sorts in place. The number of
        displaced entries is recorded, and the only pairs the encoder drops are repeated included
        keys. */
    method Do(e: Exec, given: array?<Pair>) returns (env: Blob, ghost st: Setup)
      requires |e.targets| < TWO_64 && |e.excludes| < TWO_64
      requires InUse(given).Length < TWO_64 - 3
      modifies this`sequence, this`lastCollision, encoder
      ensures st == Setup(crypto, self, impostor, capHash, if given == null then old(capMat[..]) else old(given[..]))
      ensures given != null ==> given[..] == old(given[..])
      ensures capMat[..] == old(capMat[..])
      ensures sequence == old(sequence) + 1 && env == Request(st, e, old(sequence) + 1)
      ensures lastCollision == if e.misKeyAuthor then Displaced(st) else old(lastCollision)
      ensures encoder.dedupDropped
           == old(encoder.dedupDropped) + Repeated(Included(st, e, old(sequence) + 1))
    {
      var slice, n, last := InUse(given), sequence + 1, lastCollision;
      var setup, collision := State(slice[..]), last;
      env, collision := Compose(encoder, setup, slice, e, n, last);
      st := setup;
      sequence, lastCollision := n, collision;
    }
  }

  lemma IncludedLength(s: Setup, e: Exec, n: nat)
    ensures |Included(s, e, n)| <= |s.mat| + 3
  {}

  // ---------- what the receiver resolves ----------

  /** Follow map labels into a decoded value. */
  function Path(v: Value, labels: seq<Blob>): Option<Value>
  {
    if labels == [] then Some(v)
    else if v.Map? && labels[0] in v.m then Path(v.m[labels[0]], labels[1..])
    else None
  }

  ghost predicate IdentityOk(i: Identity)
  {
    Complete(i.ent) && |i.hash| < TWO_64
  }

  /** Values the caller supplies are complete items and everything fits its length word. */
  ghost predicate Ready(s: Setup, e: Exec, n: nat)
  {
    && s.crypto.Sizes() && IdentityOk(s.self) && IdentityOk(s.impostor)
    && Complete(e.params) && AllComplete(s.mat) && |s.mat| < TWO_64 - 3
    && |RequestId(e.tag, n)| < TWO_64 && |e.uri| < TWO_64 && |e.op| < TWO_64
    && |RealCap(s, e)| < TWO_64
    && |e.targets| < TWO_64 && (forall i :: 0 <= i < |e.targets| ==> |e.targets[i]| < TWO_64)
    && |e.excludes| < TWO_64 && (forall i :: 0 <= i < |e.excludes| ==> |e.excludes[i]| < TWO_64)
  }

  lemma TextArrayComplete(ss: seq<Blob>)
    requires |ss| < TWO_64 && forall i :: 0 <= i < |ss| ==> |ss[i]| < TWO_64
    ensures Complete(Arr(TxtAll(ss)))
  {
    var vs := TxtAll(ss);
    var values := seq(|ss|, i requires 0 <= i < |ss| => Text(ss[i]));
    forall i | 0 <= i < |vs| ensures Complete(vs[i]) && ValueOf(vs[i]) == values[i] {
      StringComplete(ss[i]);
    }
    ArrComplete(vs, values);
  }

  lemma ResourceComplete(e: Exec)
    requires |e.targets| < TWO_64 && forall i :: 0 <= i < |e.targets| ==> |e.targets[i]| < TWO_64
    requires |e.excludes| < TWO_64 && forall i :: 0 <= i < |e.excludes| ==> |e.excludes[i]| < TWO_64
    ensures Complete(CMap(ResourceFields(e)))
  {
    TextArrayComplete(e.targets);
    TextArrayComplete(e.excludes);
    StringComplete(Ascii("targets"));
    StringComplete(Ascii("exclude"));
    CMapComplete(ResourceFields(e));
  }

  /** The root decodes to a map whose author field is the given author. */
  lemma RootListDecodes(rid: Blob, uri: Blob, op: Blob, params: Blob, author: Blob, cap: Blob,
                        resource: Option<Blob>)
    requires Complete(rid) && Complete(uri) && Complete(op) && Complete(params)
    requires Complete(author) && Complete(cap) && (resource.Some? ==> Complete(resource.value))
    ensures var c := CMap(RootList(rid, uri, op, params, author, cap, resource));
      Complete(c) && Path(ValueOf(c), [Ascii("author")]) == Some(ValueOf(author))
  {
    var ps := RootList(rid, uri, op, params, author, cap, resource);
    var labels := RootLabels(resource.Some?);
    RootLabelled(rid, uri, op, params, author, cap, resource);
    LabelledComplete(ps, labels);
    FieldBinding(ps, labels, 4);
    assert labels[4] == Ascii("author") && ps[4].v == author;
    PathOne(DecodedMap(ps), Ascii("author"));
  }

  lemma PathOne(m: map<Blob, Value>, s: Blob)
    ensures Path(Map(m), [s]) == if s in m then Some(m[s]) else None
  {
    assert [s][1..] == [];
  }

  lemma PathTwo(m: map<Blob, Value>, s: Blob, t: Blob)
    requires s in m && m[s].Map?
    ensures Path(Map(m), [s, t]) == if t in m[s].m then Some(m[s].m[t]) else None
  {
    assert [s, t][1..] == [t];
    PathOne(m[s].m, t);
  }

  /** The request names the author it means to be read under. */
  lemma RootFieldsComplete(s: Setup, e: Exec, n: nat)
    requires Ready(s, e, n)
    ensures Complete(RootData(s, e, n))
    ensures Path(ValueOf(RootData(s, e, n)), [Ascii("author")]) == Some(Bytes(Author(s, e).hash))
  {
    StringComplete(RequestId(e.tag, n));
    StringComplete(e.uri);
    StringComplete(e.op);
    StringComplete(Author(s, e).hash);
    StringComplete(AddressedCap(s, e));
    ResourceComplete(e);
    RootListDecodes(Txt(RequestId(e.tag, n)), Txt(e.uri), Txt(e.op), e.params, Bstr(Author(s, e).hash),
                    Bstr(AddressedCap(s, e)), Resource(e));
  }

  lemma SignatureListComplete(target: Blob, signer: Blob, signature: Blob)
    requires Complete(target) && Complete(signer) && Complete(signature)
    ensures Complete(CMap(SignatureList(target, signer, signature)))
  {
    StringComplete(Ascii("ed25519"));
    SignatureLabelled(target, signer, signature);
    LabelledComplete(SignatureList(target, signer, signature), SIGNATURE_LABELS);
  }

  lemma SignatureComplete(s: Setup, e: Exec, n: nat)
    requires s.crypto.Sizes() && IdentityOk(s.self) && IdentityOk(s.impostor)
    ensures Complete(SignatureData(s, e, n)) && Complete(SignaturePair(s, e, n).v)
    ensures |SignatureHash(s, e, n)| == 33 && Complete(SignaturePair(s, e, n).k)
  {
    var h := ContentHash(s.crypto, EXECUTE, RootData(s, e, n));
    assert |h| == 33;
    StringComplete(h);
    StringComplete(FiledHash(s, e));
    StringComplete(s.crypto.sign(SigningKey(s, e), h));
    SignatureListComplete(Bstr(h), Bstr(FiledHash(s, e)), Bstr(s.crypto.sign(SigningKey(s, e), h)));
    EntityDecodes(s.crypto, SIGNATURE, SignatureData(s, e, n));
    StringComplete(SignatureHash(s, e, n));
  }

  lemma {:induction false} WithoutFacts(ps: seq<Pair>, k: Blob, l: Blob)
    ensures WithKey(Without(ps, k), l) == if l == k then [] else WithKey(ps, l)
    ensures forall x :: x in Without(ps, k) ==> x in ps
  {
    if ps != [] {
      var t, p := ps[..|ps| - 1], ps[|ps| - 1];
      assert ps == t + [p];
      assert Without(t, k) + [] == Without(t, k);
      WithoutFacts(t, k, l);
      WithKeyAppend(t, p, l);
      WithKeyAppend(Without(t, k), p, l);
    }
  }

  lemma RefiledComplete(s: Setup, e: Exec)
    requires AllComplete(s.mat)
    ensures AllComplete(Refiled(s, e)) && |Refiled(s, e)| <= 1
  {
    StringComplete(BOGUS_KEY);
    if Refiled(s, e) != [] {
      FirstValueComplete(s.mat, Bstr(RealCap(s, e)));
    }
  }

  lemma FiledComplete(s: Setup, e: Exec)
    requires IdentityOk(s.self) && IdentityOk(s.impostor) && AllComplete(s.mat)
    ensures AllComplete(Filed(s, e)) && |Filed(s, e)| <= |s.mat| + 1
  {
    var mat, ps := s.mat, Filed(s, e);
    StringComplete(s.self.hash);
    StringComplete(s.impostor.hash);
    WithoutFacts(mat, Bstr(s.self.hash), []);
    forall i | 0 <= i < |ps| ensures Complete(ps[i].k) && Complete(ps[i].v) {
      assert ps[i] in ps;
      assert ps[i] in mat || ps[i] == Pair(Bstr(FiledHash(s, e)), FiledEntity(s, e));
    }
  }

  lemma ThreeParts(p: Pair, xs: seq<Pair>, ys: seq<Pair>, k: Blob)
    ensures WithKey([p] + xs + ys, k)
         == (if p.k == k then [p.v] else []) + WithKey(xs, k) + WithKey(ys, k)
    ensures Complete(p.k) && Complete(p.v) && AllComplete(xs) && AllComplete(ys) ==> AllComplete([p] + xs + ys)
  {
    WithKeyPrepend(p, xs, k);
    WithKeyConcat([p] + xs, ys, k);
  }

  lemma IncludedComplete(s: Setup, e: Exec, n: nat)
    requires Ready(s, e, n)
    ensures AllComplete(Included(s, e, n)) && |Included(s, e, n)| < TWO_64
  {
    SignatureComplete(s, e, n);
    FiledComplete(s, e);
    RefiledComplete(s, e);
    ThreeParts(SignaturePair(s, e, n), Filed(s, e), Refiled(s, e), []);
    IncludedLength(s, e, n);
  }

  /** How often a key is filed in the included list. */
  lemma IncludedValues(s: Setup, e: Exec, n: nat, k: Blob)
    ensures WithKey(Included(s, e, n), k)
         == (if k == Bstr(SignatureHash(s, e, n)) then [SignaturePair(s, e, n).v] else [])
          + WithKey(Filed(s, e), k) + WithKey(Refiled(s, e), k)
  {
    ThreeParts(SignaturePair(s, e, n), Filed(s, e), Refiled(s, e), k);
  }

  lemma RefiledValues(s: Setup, e: Exec, k: Blob)
    ensures WithKey(Refiled(s, e), k)
         == if k == Bstr(BOGUS_KEY) && Refiled(s, e) != [] then [Refiled(s, e)[0].v] else []
  {
    var r := Refiled(s, e);
    if r != [] {
      assert r == [r[0]] + [];
      WithKeyPrepend(r[0], [], k);
    }
  }

  lemma FiledValues(s: Setup, e: Exec, k: Blob)
    ensures WithKey(Filed(s, e), k)
         == if k == Bstr(FiledHash(s, e))
            then [FiledEntity(s, e)] + (if e.misKeyAuthor then [] else WithKey(s.mat, k))
            else WithKey(s.mat, k)
  {
    var h := Bstr(FiledHash(s, e));
    var p := Pair(h, FiledEntity(s, e));
    if e.misKeyAuthor {
      WithoutFacts(s.mat, h, k);
      WithKeyAppend(Without(s.mat, h), p, k);
    } else {
      WithKeyPrepend(p, s.mat, k);
    }
  }

  /** Keys of the same byte string are the same key. */
  lemma BstrNames(x: Blob, h: Blob)
    requires |x| < TWO_64
    ensures !Alias(Bstr(x), h)
    ensures |h| < TWO_64 && Bstr(x) == Bstr(h) ==> x == h
  {
    StringComplete(x);
    if Alias(Bstr(x), h) {
      HexInjective(x, h);
    }
    if |h| < TWO_64 {
      StringComplete(h);
    }
  }

  lemma AliasIsNoAddress(x: Blob, k: Blob, h: Blob)
    requires |x| < TWO_64 && Alias(k, h)
    ensures k != Bstr(x)
  {
    BstrNames(x, h);
  }

  /** What the included list files under a key that is neither the signature's nor the author's:
      what the forwarded material files there, and behind it the token filed again. */
  lemma FiledBehind(s: Setup, e: Exec, n: nat, k: Blob)
    requires k != Bstr(SignatureHash(s, e, n)) && k != Bstr(FiledHash(s, e))
    ensures FirstValue(Included(s, e, n), k)
         == if Occurs(s.mat, k) then FirstValue(s.mat, k) else FirstValue(Refiled(s, e), k)
  {
    IncludedValues(s, e, n, k);
    FiledValues(s, e, k);
    FirstBehind(Included(s, e, n), s.mat, Refiled(s, e), k);
  }

  lemma FirstBehind(ps: seq<Pair>, xs: seq<Pair>, ys: seq<Pair>, k: Blob)
    requires WithKey(ps, k) == [] + WithKey(xs, k) + WithKey(ys, k)
    ensures FirstValue(ps, k) == if Occurs(xs, k) then FirstValue(xs, k) else FirstValue(ys, k)
  {
    FirstOfBoth(WithKey(xs, k), WithKey(ys, k));
  }

  lemma FirstOfBoth(vs: seq<Blob>, ws: seq<Blob>)
    ensures [] + vs + ws == vs + ws
    ensures vs + ws != [] ==> (vs + ws)[0] == if vs != [] then vs[0] else ws[0]
    ensures vs + ws == [] <==> vs == [] && ws == []
  {
    assert [] + vs == vs;
  }

  lemma RefiledAt(s: Setup, e: Exec, k: Blob)
    ensures FirstValue(Refiled(s, e), k)
         == if k == Bstr(BOGUS_KEY) && e.misKeyCapability then FirstValue(s.mat, Bstr(RealCap(s, e))) else None
  {
    RefiledValues(s, e, k);
  }

  /** Under any other key the included list files what the forwarded material files. */
  lemma IncludedElsewhere(s: Setup, e: Exec, n: nat, k: Blob)
    requires k != Bstr(SignatureHash(s, e, n)) && k != Bstr(FiledHash(s, e)) && k != Bstr(BOGUS_KEY)
    ensures FirstValue(Included(s, e, n), k) == FirstValue(s.mat, k)
  {
    FiledBehind(s, e, n, k);
    RefiledAt(s, e, k);
  }

  /** The included map's aliases of an address are those of the forwarded material. */
  lemma IncludedAliases(s: Setup, e: Exec, n: nat, k: Blob, h: Blob)
    requires Ready(s, e, n) && Alias(k, h)
    ensures FirstValue(Included(s, e, n), k) == FirstValue(s.mat, k)
  {
    SignatureComplete(s, e, n);
    AliasIsNoAddress(SignatureHash(s, e, n), k, h);
    AliasIsNoAddress(FiledHash(s, e), k, h);
    AliasIsNoAddress(BOGUS_KEY, k, h);
    IncludedElsewhere(s, e, n, k);
  }

  lemma FiledIsFirst(s: Setup, e: Exec, n: nat)
    requires Ready(s, e, n) && SignatureHash(s, e, n) != FiledHash(s, e)
    ensures FirstValue(Included(s, e, n), Bstr(FiledHash(s, e))) == Some(FiledEntity(s, e))
  {
    SignatureComplete(s, e, n);
    BstrNames(SignatureHash(s, e, n), FiledHash(s, e));
    IncludedValues(s, e, n, Bstr(FiledHash(s, e)));
    FiledValues(s, e, Bstr(FiledHash(s, e)));
  }

  lemma EnvelopeDecodes(root: Blob, included: Blob)
    requires Complete(root) && Complete(included)
    ensures Complete(Envelope(root, included)) && ValueOf(Envelope(root, included)).Map?
    ensures var m := ValueOf(Envelope(root, included)).m;
      && Ascii("root") in m && m[Ascii("root")] == ValueOf(root)
      && Ascii("included") in m && m[Ascii("included")] == ValueOf(included)
  {
    var ps := [Pair(Txt(Ascii("root")), root), Pair(Txt(Ascii("included")), included)];
    var labels := [Ascii("root"), Ascii("included")];
    EnvelopeLabelled(root, included);
    LabelledComplete(ps, labels);
    FieldBinding(ps, labels, 0);
    FieldBinding(ps, labels, 1);
  }

  /** The request decodes to its root entity and to the decoded included list. */
  lemma RequestDecodes(s: Setup, e: Exec, n: nat)
    requires Ready(s, e, n)
    ensures Complete(Request(s, e, n)) && ValueOf(Request(s, e, n)).Map?
    ensures AllComplete(Included(s, e, n)) && |Included(s, e, n)| < TWO_64
    ensures Complete(RootData(s, e, n))
    ensures var m := ValueOf(Request(s, e, n)).m;
      && Ascii("included") in m && m[Ascii("included")] == Map(DecodedMap(Included(s, e, n)))
    ensures Path(ValueOf(Request(s, e, n)), [Ascii("root"), Ascii("data")]) == Some(ValueOf(RootData(s, e, n)))
  {
    RootFieldsComplete(s, e, n);
    IncludedComplete(s, e, n);
    CMapComplete(Included(s, e, n));
    EntityDecodes(s.crypto, EXECUTE, RootData(s, e, n));
    EnvelopeDecodes(Entity(s.crypto, EXECUTE, RootData(s, e, n)), CMap(Included(s, e, n)));
    PathTwo(ValueOf(Request(s, e, n)).m, Ascii("root"), Ascii("data"));
  }

  function ResolvedAt(s: Setup, e: Exec, n: nat, h: Blob): Option<Value>
    requires Complete(Request(s, e, n))
  {
    Path(ValueOf(Request(s, e, n)), [Ascii("included"), Hex(h)])
  }

  lemma ResolvedInIncluded(s: Setup, e: Exec, n: nat, h: Blob)
    requires Ready(s, e, n)
    ensures AllComplete(Included(s, e, n)) && |Included(s, e, n)| < TWO_64
    ensures Complete(Request(s, e, n)) && ResolvedAt(s, e, n, h) == BoundAt(Included(s, e, n), h)
  {
    RequestDecodes(s, e, n);
    PathTwo(ValueOf(Request(s, e, n)).m, Ascii("included"), Hex(h));
  }

  /** What the receiver finds at an address: if the forwarded material has an alias of it, what that
      material binds by itself; otherwise what the request files there first. */
  lemma ResolvedFrom(s: Setup, e: Exec, n: nat, h: Blob)
    requires Ready(s, e, n) && |h| < TWO_64
    ensures AllComplete(Included(s, e, n)) && Complete(Request(s, e, n))
    ensures ResolvedAt(s, e, n, h)
         == if NoAlias(s.mat, h) then ValueAt(Included(s, e, n), Bstr(h)) else BoundAt(s.mat, h)
  {
    var inc := Included(s, e, n);
    ResolvedInIncluded(s, e, n, h);
    forall k | Alias(k, h) ensures FirstValue(s.mat, k) == FirstValue(inc, k) {
      IncludedAliases(s, e, n, k, h);
    }
    if NoAlias(s.mat, h) {
      assert NoAlias(inc, h);
      BoundWithoutAlias(inc, h);
    } else {
      AliasDecides(s.mat, inc, h);
    }
  }

  /** What the receiver finds where the author is filed: the impostor at our own address in the
      mis-keyed arm, the author's entity at the author's address in every other arm, whatever the
      forwarded material repeats; unless that material has an alias of the address, or the signature
      is filed there. */
  lemma AuthorSubstitution(s: Setup, e: Exec, n: nat)
    requires Ready(s, e, n)
    ensures Complete(Request(s, e, n)) && Complete(SignaturePair(s, e, n).v)
    ensures var h := FiledHash(s, e);
      ResolvedAt(s, e, n, h)
        == if !NoAlias(s.mat, h) then BoundAt(s.mat, h)
           else if SignatureHash(s, e, n) == h then Some(ValueOf(SignaturePair(s, e, n).v))
           else Some(ValueOf(FiledEntity(s, e)))
  {
    ResolvedFrom(s, e, n, FiledHash(s, e));
    SignatureComplete(s, e, n);
    if SignatureHash(s, e, n) != FiledHash(s, e) {
      FiledIsFirst(s, e, n);
    } else {
      IncludedValues(s, e, n, Bstr(FiledHash(s, e)));
    }
  }

  /** Exactly when: the substitution holds if and only if the forwarded material has no alias of the
      address, or by itself already binds the address to the entity filed. */
  lemma SubstitutionHoldsExactly(s: Setup, e: Exec, n: nat)
    requires Ready(s, e, n) && SignatureHash(s, e, n) != FiledHash(s, e)
    ensures Complete(Request(s, e, n))
    ensures var h, entity := FiledHash(s, e), Some(ValueOf(FiledEntity(s, e)));
      ResolvedAt(s, e, n, h) == entity <==> NoAlias(s.mat, h) || BoundAt(s.mat, h) == entity
  {
    AuthorSubstitution(s, e, n);
  }

  /** The author field a receiver reads out of a request. */
  lemma AuthorField(s: Setup, e: Exec, n: nat)
    requires Ready(s, e, n)
    ensures Complete(Request(s, e, n))
    ensures Path(ValueOf(Request(s, e, n)), [Ascii("root"), Ascii("data"), Ascii("author")])
         == Some(Bytes(Author(s, e).hash))
  {
    RequestDecodes(s, e, n);
    RootFieldsComplete(s, e, n);
    PathThree(ValueOf(Request(s, e, n)), Ascii("root"), Ascii("data"), Ascii("author"));
  }

  lemma PathThree(v: Value, a: Blob, b: Blob, c: Blob)
    requires Path(v, [a, b]).Some?
    ensures Path(v, [a, b, c]) == Path(Path(v, [a, b]).value, [c])
  {
    PathSplit(v, [a, b], [c]);
    assert [a, b] + [c] == [a, b, c];
  }

  /** In the mis-keyed arm the address the request itself names as its author resolves to the
      impostor's entity, under exactly the condition above. */
  lemma MisKeyedRequestResolvesToImpostor(s: Setup, e: Exec, n: nat)
    requires Ready(s, e, n) && e.misKeyAuthor && !e.impostorIdentity
    requires SignatureHash(s, e, n) != s.self.hash
    ensures Complete(Request(s, e, n))
    ensures var v, own, impostor := ValueOf(Request(s, e, n)), s.self.hash, Some(ValueOf(s.impostor.ent));
      && Path(v, [Ascii("root"), Ascii("data"), Ascii("author")]) == Some(Bytes(own))
      && (Path(v, [Ascii("included"), Hex(own)]) == impostor
          <==> NoAlias(s.mat, own) || BoundAt(s.mat, own) == impostor)
  {
    AuthorField(s, e, n);
    SubstitutionHoldsExactly(s, e, n);
  }

  lemma {:induction false} PathSplit(v: Value, a: seq<Blob>, b: seq<Blob>)
    requires Path(v, a).Some?
    ensures Path(v, a + b) == Path(Path(v, a).value, b)
  {
    if a == [] {
      assert a + b == b;
    } else {
      assert (a + b)[1..] == a[1..] + b;
      PathSplit(v.m[a[0]], a[1..], b);
    }
  }

  lemma BstrDiffers(x: Blob, h: Blob)
    requires |x| < TWO_64 && |h| < TWO_64 && x != h
    ensures Bstr(h) != Bstr(x)
  {
    BstrNames(x, h);
  }

  lemma SameValue(ps: seq<Pair>, k: Blob, qs: seq<Pair>, l: Blob)
    requires AllComplete(ps) && AllComplete(qs) && FirstValue(ps, k) == FirstValue(qs, l)
    ensures ValueAt(ps, k) == ValueAt(qs, l)
  {}

  /** The bogus address resolves to the real token in the mis-keyed capability arm and to nothing in
      the others, unless the forwarded material binds that address by itself, which then wins. */
  lemma RefiledCapabilityResolves(s: Setup, e: Exec, n: nat)
    requires Ready(s, e, n)
    requires SignatureHash(s, e, n) != BOGUS_KEY && FiledHash(s, e) != BOGUS_KEY
    ensures Complete(Request(s, e, n))
    ensures ResolvedAt(s, e, n, BOGUS_KEY)
         == if BoundAt(s.mat, BOGUS_KEY).Some? then BoundAt(s.mat, BOGUS_KEY)
            else if e.misKeyCapability then ValueAt(s.mat, Bstr(RealCap(s, e)))
            else None
  {
    var h, inc := BOGUS_KEY, Included(s, e, n);
    ResolvedFrom(s, e, n, h);
    if NoAlias(s.mat, h) {
      BoundWithoutAlias(s.mat, h);
      NotElsewhere(s, e, n, h);
      FiledBehind(s, e, n, Bstr(h));
      RefiledAt(s, e, Bstr(h));
      if Occurs(s.mat, Bstr(h)) {
        SameValue(inc, Bstr(h), s.mat, Bstr(h));
      } else if e.misKeyCapability {
        SameValue(inc, Bstr(h), s.mat, Bstr(RealCap(s, e)));
      }
    } else {
      AliasIsFound(s.mat, h);
    }
  }

  lemma NotElsewhere(s: Setup, e: Exec, n: nat, h: Blob)
    requires Ready(s, e, n) && |h| < TWO_64
    requires SignatureHash(s, e, n) != h && FiledHash(s, e) != h
    ensures Bstr(h) != Bstr(SignatureHash(s, e, n)) && Bstr(h) != Bstr(FiledHash(s, e))
  {
    SignatureComplete(s, e, n);
    BstrDiffers(SignatureHash(s, e, n), h);
    BstrDiffers(FiledHash(s, e), h);
  }

  lemma AliasIsFound(ps: seq<Pair>, h: Blob)
    requires AllComplete(ps) && |ps| < TWO_64 && !NoAlias(ps, h)
    ensures BoundAt(ps, h).Some?
  {
    var a :| Occurs(ps, a) && Alias(a, h);
    var k := AliasBinding(ps, h, a);
  }

  /** Every other address resolves as in the forwarded material alone. */
  lemma ForwardedResolves(s: Setup, e: Exec, n: nat, h: Blob)
    requires Ready(s, e, n) && |h| < TWO_64
    requires h != SignatureHash(s, e, n) && h != FiledHash(s, e) && h != BOGUS_KEY
    ensures Complete(Request(s, e, n)) && ResolvedAt(s, e, n, h) == BoundAt(s.mat, h)
  {
    ResolvedFrom(s, e, n, h);
    if NoAlias(s.mat, h) {
      BoundWithoutAlias(s.mat, h);
      NotElsewhere(s, e, n, h);
      BstrDiffers(BOGUS_KEY, h);
      IncludedElsewhere(s, e, n, Bstr(h));
      SameValue(Included(s, e, n), Bstr(h), s.mat, Bstr(h));
    }
  }

  // ---------- the signature's address ----------

  /** The signature is filed under an address of its own: should it be the content hash of an entity
      of another type, the hash function collides on the two. */
  lemma SignatureAddressIsItsOwn(s: Setup, e: Exec, n: nat, typ: Blob, data: Blob)
    requires s.crypto.Sizes() && IdentityOk(s.self) && IdentityOk(s.impostor)
    requires Complete(data) && |typ| < TWO_64 && typ != SIGNATURE
    ensures SignatureHash(s, e, n) != ContentHash(s.crypto, typ, data)
         || (EntityBasis(SIGNATURE, SignatureData(s, e, n)) != EntityBasis(typ, data)
             && s.crypto.sha256(EntityBasis(SIGNATURE, SignatureData(s, e, n)))
             == s.crypto.sha256(EntityBasis(typ, data)))
  {
    if SignatureHash(s, e, n) == ContentHash(s.crypto, typ, data) {
      SignatureComplete(s, e, n);
      ContentAddressing(s.crypto, SIGNATURE, SignatureData(s, e, n), typ, data);
    }
  }
}
