/** What a receiver reads out of a request, field by field, in terms of what the caller asked for. */
module RequestFields {
  import opened Options
  import opened Bytes
  import opened Heads
  import opened Decoder
  import opened CanonicalMap
  import opened Slicer
  import opened Denotation
  import opened Arrays
  import opened Entities
  import opened Envelopes

  // ---------- records ----------

  lemma RecordField(ps: seq<Pair>, labels: seq<Blob>, i: nat)
    requires Labelled(ps, labels) && AllComplete(ps) && |ps| < TWO_64 && i < |ps|
    ensures Complete(CMap(ps)) && Path(ValueOf(CMap(ps)), [labels[i]]) == Some(ValueOf(ps[i].v))
  {
    CMapComplete(ps);
    FieldBinding(ps, labels, i);
    PathOne(DecodedMap(ps), labels[i]);
  }

  lemma RecordAbsent(ps: seq<Pair>, labels: seq<Blob>, name: Blob)
    requires Labelled(ps, labels) && AllComplete(ps) && |ps| < TWO_64 && name !in labels
    ensures Complete(CMap(ps)) && Path(ValueOf(CMap(ps)), [name]) == None
  {
    CMapComplete(ps);
    DecodedNames(ps, name);
    forall k | Occurs(ps, k) ensures !Names(k, name) {
      var j := OccursAt(ps, k);
      StringComplete(labels[j]);
    }
    PathOne(DecodedMap(ps), name);
  }

  // ---------- the resource ----------

  function Texts(ss: seq<Blob>): (vs: seq<Value>)
    ensures |vs| == |ss| && forall i :: 0 <= i < |ss| ==> vs[i] == Text(ss[i])
  {
    seq(|ss|, i requires 0 <= i < |ss| => Text(ss[i]))
  }

  ghost predicate Short(ss: seq<Blob>)
  {
    |ss| < TWO_64 && forall i :: 0 <= i < |ss| ==> |ss[i]| < TWO_64
  }

  lemma TextArrayDecodes(ss: seq<Blob>)
    requires Short(ss)
    ensures Complete(Arr(TxtAll(ss))) && ValueOf(Arr(TxtAll(ss))) == Array(Texts(ss))
  {
    var vs := TxtAll(ss);
    forall i | 0 <= i < |vs| ensures Complete(vs[i]) && ValueOf(vs[i]) == Texts(ss)[i] {
      StringComplete(ss[i]);
    }
    ArrComplete(vs, Texts(ss));
  }

  function ResourceLabels(e: Exec): seq<Blob>
  {
    [Ascii("targets")] + (if e.excludes == [] then [] else [Ascii("exclude")])
  }

  lemma ResourceRecord(e: Exec)
    requires Short(e.targets) && Short(e.excludes)
    ensures Labelled(ResourceFields(e), ResourceLabels(e)) && AllComplete(ResourceFields(e))
  {
    TextArrayDecodes(e.targets);
    TextArrayDecodes(e.excludes);
    ResourceLabelled(e);
    StringComplete(Ascii("targets"));
    StringComplete(Ascii("exclude"));
  }

  lemma TargetsDecode(e: Exec)
    requires Short(e.targets) && Short(e.excludes)
    ensures var c := CMap(ResourceFields(e));
      Complete(c) && Path(ValueOf(c), [Ascii("targets")]) == Some(Array(Texts(e.targets)))
  {
    ResourceRecord(e);
    TextArrayDecodes(e.targets);
    RecordField(ResourceFields(e), ResourceLabels(e), 0);
  }

  lemma ExcludesDecode(e: Exec)
    requires Short(e.targets) && Short(e.excludes)
    ensures var c := CMap(ResourceFields(e));
      && Complete(c)
      && Path(ValueOf(c), [Ascii("exclude")])
         == if e.excludes == [] then None else Some(Array(Texts(e.excludes)))
  {
    ResourceRecord(e);
    if e.excludes == [] {
      assert Ascii("targets")[0] != Ascii("exclude")[0];
      RecordAbsent(ResourceFields(e), ResourceLabels(e), Ascii("exclude"));
    } else {
      TextArrayDecodes(e.excludes);
      RecordField(ResourceFields(e), ResourceLabels(e), 1);
    }
  }

  lemma ResourceDecodes(e: Exec)
    requires Short(e.targets) && Short(e.excludes)
    ensures var c := CMap(ResourceFields(e));
      && Complete(c)
      && Path(ValueOf(c), [Ascii("targets")]) == Some(Array(Texts(e.targets)))
      && Path(ValueOf(c), [Ascii("exclude")])
         == if e.excludes == [] then None else Some(Array(Texts(e.excludes)))
  {
    TargetsDecode(e);
    ExcludesDecode(e);
  }

  // ---------- the root ----------

  ghost predicate RootParts(rid: Blob, uri: Blob, op: Blob, params: Blob, author: Blob, cap: Blob,
                            resource: Option<Blob>)
  {
    && Complete(rid) && Complete(uri) && Complete(op) && Complete(params) && Complete(author) && Complete(cap)
    && (resource.Some? ==> Complete(resource.value))
  }

  lemma RootListField(rid: Blob, uri: Blob, op: Blob, params: Blob, author: Blob, cap: Blob,
                      resource: Option<Blob>, i: nat)
    requires RootParts(rid, uri, op, params, author, cap, resource)
    requires i < |RootList(rid, uri, op, params, author, cap, resource)|
    ensures var ps := RootList(rid, uri, op, params, author, cap, resource);
      && |RootLabels(resource.Some?)| == |ps| && Complete(CMap(ps)) && Complete(ps[i].v)
      && Path(ValueOf(CMap(ps)), [RootLabels(resource.Some?)[i]]) == Some(ValueOf(ps[i].v))
  {
    var ps := RootList(rid, uri, op, params, author, cap, resource);
    RootLabelled(rid, uri, op, params, author, cap, resource);
    LabelledComplete(ps, RootLabels(resource.Some?));
    RecordField(ps, RootLabels(resource.Some?), i);
  }

  lemma NoResourceLabel()
    ensures Ascii("resource") !in RootLabels(false)
  {
    assert |Ascii("resource")| == 8;
  }

  lemma RootListFront(rid: Blob, uri: Blob, op: Blob, params: Blob, author: Blob, cap: Blob,
                      resource: Option<Blob>)
    requires RootParts(rid, uri, op, params, author, cap, resource)
    ensures var c := CMap(RootList(rid, uri, op, params, author, cap, resource));
      && Complete(c)
      && Path(ValueOf(c), [Ascii("request_id")]) == Some(ValueOf(rid))
      && Path(ValueOf(c), [Ascii("uri")]) == Some(ValueOf(uri))
      && Path(ValueOf(c), [Ascii("operation")]) == Some(ValueOf(op))
  {
    RootListField(rid, uri, op, params, author, cap, resource, 0);
    RootListField(rid, uri, op, params, author, cap, resource, 1);
    RootListField(rid, uri, op, params, author, cap, resource, 2);
  }

  lemma RootListMiddle(rid: Blob, uri: Blob, op: Blob, params: Blob, author: Blob, cap: Blob,
                       resource: Option<Blob>)
    requires RootParts(rid, uri, op, params, author, cap, resource)
    ensures var c := CMap(RootList(rid, uri, op, params, author, cap, resource));
      && Complete(c)
      && Path(ValueOf(c), [Ascii("params")]) == Some(ValueOf(params))
      && Path(ValueOf(c), [Ascii("author")]) == Some(ValueOf(author))
      && Path(ValueOf(c), [Ascii("capability")]) == Some(ValueOf(cap))
  {
    RootListField(rid, uri, op, params, author, cap, resource, 3);
    RootListField(rid, uri, op, params, author, cap, resource, 4);
    RootListField(rid, uri, op, params, author, cap, resource, 5);
  }

  lemma RootListEnd(rid: Blob, uri: Blob, op: Blob, params: Blob, author: Blob, cap: Blob,
                    resource: Option<Blob>)
    requires RootParts(rid, uri, op, params, author, cap, resource)
    ensures var c := CMap(RootList(rid, uri, op, params, author, cap, resource));
      && Complete(c)
      && Path(ValueOf(c), [Ascii("resource")])
         == if resource.Some? then Some(ValueOf(resource.value)) else None
  {
    if resource.Some? {
      RootListField(rid, uri, op, params, author, cap, resource, 6);
    } else {
      var ps := RootList(rid, uri, op, params, author, cap, resource);
      RootLabelled(rid, uri, op, params, author, cap, resource);
      LabelledComplete(ps, RootLabels(false));
      NoResourceLabel();
      RecordAbsent(ps, RootLabels(false), Ascii("resource"));
    }
  }

  /** The fields of the root list, each under its own label. */
  lemma RootRead(rid: Blob, uri: Blob, op: Blob, params: Blob, author: Blob, cap: Blob,
                 resource: Option<Blob>)
    requires RootParts(rid, uri, op, params, author, cap, resource)
    ensures var c := CMap(RootList(rid, uri, op, params, author, cap, resource));
      && Complete(c)
      && Path(ValueOf(c), [Ascii("request_id")]) == Some(ValueOf(rid))
      && Path(ValueOf(c), [Ascii("uri")]) == Some(ValueOf(uri))
      && Path(ValueOf(c), [Ascii("operation")]) == Some(ValueOf(op))
      && Path(ValueOf(c), [Ascii("params")]) == Some(ValueOf(params))
      && Path(ValueOf(c), [Ascii("author")]) == Some(ValueOf(author))
      && Path(ValueOf(c), [Ascii("capability")]) == Some(ValueOf(cap))
      && Path(ValueOf(c), [Ascii("resource")])
         == if resource.Some? then Some(ValueOf(resource.value)) else None
  {
    RootListFront(rid, uri, op, params, author, cap, resource);
    RootListMiddle(rid, uri, op, params, author, cap, resource);
    RootListEnd(rid, uri, op, params, author, cap, resource);
  }

  /** The capability a request names. */
  function NamedCap(s: Setup, e: Exec): Blob
  {
    if e.misKeyCapability || e.bogusCapAbsent then [0] + Fill(32, 0xA7)
    else if e.capHash.Some? then e.capHash.value
    else s.capHash
  }

  /** The root data's own fields. */
  lemma RootDataRead(s: Setup, e: Exec, n: nat)
    requires Ready(s, e, n)
    ensures var c := RootData(s, e, n);
      && Complete(c)
      && Path(ValueOf(c), [Ascii("request_id")]) == Some(Text(RequestId(e.tag, n)))
      && Path(ValueOf(c), [Ascii("uri")]) == Some(Text(e.uri))
      && Path(ValueOf(c), [Ascii("operation")]) == Some(Text(e.op))
      && Path(ValueOf(c), [Ascii("params")]) == Some(ValueOf(e.params))
      && Path(ValueOf(c), [Ascii("author")])
         == Some(Bytes(if e.impostorIdentity then s.impostor.hash else s.self.hash))
      && Path(ValueOf(c), [Ascii("capability")]) == Some(Bytes(NamedCap(s, e)))
      && Path(ValueOf(c), [Ascii("resource")])
         == if e.targets == [] then None
            else (ResourceDecodes(e); Some(ValueOf(CMap(ResourceFields(e)))))
  {
    StringComplete(RequestId(e.tag, n));
    StringComplete(e.uri);
    StringComplete(e.op);
    StringComplete(Author(s, e).hash);
    StringComplete(AddressedCap(s, e));
    ResourceDecodes(e);
    RootRead(Txt(RequestId(e.tag, n)), Txt(e.uri), Txt(e.op), e.params, Bstr(Author(s, e).hash),
             Bstr(AddressedCap(s, e)), Resource(e));
  }

  /** Reading on in the request's root data. */
  function InRoot(s: Setup, e: Exec, n: nat, labels: seq<Blob>): Option<Value>
    requires Complete(Request(s, e, n))
  {
    Path(ValueOf(Request(s, e, n)), [Ascii("root"), Ascii("data")] + labels)
  }

  lemma InRootIs(s: Setup, e: Exec, n: nat, labels: seq<Blob>)
    requires Ready(s, e, n)
    ensures Complete(Request(s, e, n)) && Complete(RootData(s, e, n))
    ensures InRoot(s, e, n, labels) == Path(ValueOf(RootData(s, e, n)), labels)
  {
    RequestDecodes(s, e, n);
    PathSplit(ValueOf(Request(s, e, n)), [Ascii("root"), Ascii("data")], labels);
  }

  /** What a receiver reads in the root of a request: exactly what the caller asked for, each value under
      its own name, and the address of the author and of the capability that the arm in use names. */
  lemma RequestReads(s: Setup, e: Exec, n: nat)
    requires Ready(s, e, n)
    ensures Complete(Request(s, e, n))
    ensures InRoot(s, e, n, [Ascii("request_id")])
         == Some(Text(Ascii("arc-probe-") + e.tag + Ascii("-") + Decimal(n)))
    ensures InRoot(s, e, n, [Ascii("uri")]) == Some(Text(e.uri))
    ensures InRoot(s, e, n, [Ascii("operation")]) == Some(Text(e.op))
    ensures InRoot(s, e, n, [Ascii("params")]) == Some(ValueOf(e.params))
    ensures InRoot(s, e, n, [Ascii("author")])
         == Some(Bytes(if e.impostorIdentity then s.impostor.hash else s.self.hash))
    ensures InRoot(s, e, n, [Ascii("capability")]) == Some(Bytes(NamedCap(s, e)))
  {
    RootDataRead(s, e, n);
    InRootIs(s, e, n, [Ascii("request_id")]);
    InRootIs(s, e, n, [Ascii("uri")]);
    InRootIs(s, e, n, [Ascii("operation")]);
    InRootIs(s, e, n, [Ascii("params")]);
    InRootIs(s, e, n, [Ascii("author")]);
    InRootIs(s, e, n, [Ascii("capability")]);
  }

  lemma PathThrough(v: Value, a: Blob, w: Value, b: Blob)
    requires Path(v, [a]) == Some(w)
    ensures Path(v, [a, b]) == Path(w, [b])
  {
    PathSplit(v, [a], [b]);
    assert [a] + [b] == [a, b];
  }

  lemma ResourceField(s: Setup, e: Exec, n: nat, name: Blob)
    requires Ready(s, e, n) && e.targets != []
    ensures Complete(Request(s, e, n)) && Complete(CMap(ResourceFields(e)))
    ensures InRoot(s, e, n, [Ascii("resource"), name]) == Path(ValueOf(CMap(ResourceFields(e))), [name])
  {
    ResourceDecodes(e);
    RootDataRead(s, e, n);
    InRootIs(s, e, n, [Ascii("resource"), name]);
    PathThrough(ValueOf(RootData(s, e, n)), Ascii("resource"), ValueOf(CMap(ResourceFields(e))), name);
  }

  /** And its resource: the given targets and exclusions in order, or neither. */
  lemma ResourceReads(s: Setup, e: Exec, n: nat)
    requires Ready(s, e, n)
    ensures Complete(Request(s, e, n))
    ensures e.targets == [] ==> InRoot(s, e, n, [Ascii("resource")]) == None
    ensures e.targets != [] ==>
      && InRoot(s, e, n, [Ascii("resource"), Ascii("targets")]) == Some(Array(Texts(e.targets)))
      && InRoot(s, e, n, [Ascii("resource"), Ascii("exclude")])
         == if e.excludes == [] then None else Some(Array(Texts(e.excludes)))
  {
    if e.targets == [] {
      RootDataRead(s, e, n);
      InRootIs(s, e, n, [Ascii("resource")]);
    } else {
      ResourceDecodes(e);
      ResourceField(s, e, n, Ascii("targets"));
      ResourceField(s, e, n, Ascii("exclude"));
    }
  }

  // ---------- the request's number ----------

  function NumberIn(digits: Blob): nat
  {
    if digits == [] then 0
    else
      var d := digits[|digits| - 1];
      10 * NumberIn(digits[..|digits| - 1]) + (if 48 <= d <= 57 then d - 48 else 0)
  }

  /** The number is written with the digits 0 to 9, the most significant first and not zero. */
  lemma {:induction false} DecimalReads(n: nat)
    ensures var s := Decimal(n);
      && NumberIn(s) == n && s != [] && (forall i :: 0 <= i < |s| ==> 48 <= s[i] <= 57)
      && (n > 0 ==> s[0] != 48)
  {
    if n >= 10 {
      DecimalReads(n / 10);
      var s := Decimal(n);
      assert s[..|s| - 1] == Decimal(n / 10);
    } else {
      assert Decimal(n)[..0] == [];
    }
  }

  // ---------- the signature ----------

  lemma SignatureListRead(target: Blob, signer: Blob, signature: Blob)
    requires Complete(target) && Complete(signer) && Complete(signature)
    ensures var c := CMap(SignatureList(target, signer, signature));
      && Complete(c)
      && Path(ValueOf(c), [Ascii("target")]) == Some(ValueOf(target))
      && Path(ValueOf(c), [Ascii("signer")]) == Some(ValueOf(signer))
      && Path(ValueOf(c), [Ascii("algorithm")]) == Some(Text(Ascii("ed25519")))
      && Path(ValueOf(c), [Ascii("signature")]) == Some(ValueOf(signature))
  {
    var ps := SignatureList(target, signer, signature);
    StringComplete(Ascii("ed25519"));
    SignatureLabelled(target, signer, signature);
    LabelledComplete(ps, SIGNATURE_LABELS);
    RecordField(ps, SIGNATURE_LABELS, 0);
    RecordField(ps, SIGNATURE_LABELS, 1);
    RecordField(ps, SIGNATURE_LABELS, 2);
    RecordField(ps, SIGNATURE_LABELS, 3);
  }

  /** The signing key and the signer named, arm by arm. */
  function SignsWith(s: Setup, e: Exec): Blob
  {
    if e.misKeyAuthor || e.impostorIdentity then s.impostor.priv else s.self.priv
  }

  function SignerNamed(s: Setup, e: Exec): Blob
  {
    if !e.misKeyAuthor && e.impostorIdentity then s.impostor.hash else s.self.hash
  }

  function RootHash(s: Setup, e: Exec, n: nat): Blob
  {
    ContentHash(s.crypto, EXECUTE, RootData(s, e, n))
  }

  lemma SignatureDataRead(s: Setup, e: Exec, n: nat)
    requires s.crypto.Sizes() && IdentityOk(s.self) && IdentityOk(s.impostor)
    ensures var c, t := SignatureData(s, e, n), RootHash(s, e, n);
      && Complete(c)
      && Path(ValueOf(c), [Ascii("target")]) == Some(Bytes(t))
      && Path(ValueOf(c), [Ascii("signer")]) == Some(Bytes(SignerNamed(s, e)))
      && Path(ValueOf(c), [Ascii("algorithm")]) == Some(Text(Ascii("ed25519")))
      && Path(ValueOf(c), [Ascii("signature")]) == Some(Bytes(s.crypto.sign(SignsWith(s, e), t)))
  {
    var t := RootHash(s, e, n);
    assert |t| == 33;
    StringComplete(t);
    StringComplete(FiledHash(s, e));
    StringComplete(s.crypto.sign(SigningKey(s, e), t));
    SignatureListRead(Bstr(t), Bstr(FiledHash(s, e)), Bstr(s.crypto.sign(SigningKey(s, e), t)));
  }

  /** Without an alias of its address, the signature is what the receiver finds there. */
  lemma SignatureFound(s: Setup, e: Exec, n: nat)
    requires Ready(s, e, n) && NoAlias(s.mat, SignatureHash(s, e, n))
    ensures Complete(Request(s, e, n)) && Complete(SignaturePair(s, e, n).v)
    ensures ResolvedAt(s, e, n, SignatureHash(s, e, n)) == Some(ValueOf(SignaturePair(s, e, n).v))
  {
    SignatureComplete(s, e, n);
    ResolvedFrom(s, e, n, SignatureHash(s, e, n));
    IncludedValues(s, e, n, Bstr(SignatureHash(s, e, n)));
  }

  /** Reading on in the entity found at the signature's address. */
  function InSignature(s: Setup, e: Exec, n: nat, labels: seq<Blob>): Option<Value>
    requires Complete(Request(s, e, n))
  {
    Path(ValueOf(Request(s, e, n)), [Ascii("included"), Hex(SignatureHash(s, e, n))] + labels)
  }

  lemma InSignatureIs(s: Setup, e: Exec, n: nat, labels: seq<Blob>)
    requires Ready(s, e, n) && NoAlias(s.mat, SignatureHash(s, e, n))
    ensures Complete(Request(s, e, n)) && Complete(SignaturePair(s, e, n).v)
    ensures InSignature(s, e, n, labels) == Path(ValueOf(SignaturePair(s, e, n).v), labels)
  {
    SignatureFound(s, e, n);
    PathSplit(ValueOf(Request(s, e, n)), [Ascii("included"), Hex(SignatureHash(s, e, n))], labels);
  }

  /** Reading on in an entity's data. */
  lemma InData(c: Crypto, typ: Blob, data: Blob, name: Blob)
    requires c.Sizes() && Complete(data) && |typ| < TWO_64
    ensures Complete(Entity(c, typ, data))
    ensures Path(ValueOf(Entity(c, typ, data)), [Ascii("data"), name]) == Path(ValueOf(data), [name])
    ensures Path(ValueOf(Entity(c, typ, data)), [Ascii("type")]) == Some(Text(typ))
    ensures Path(ValueOf(Entity(c, typ, data)), [Ascii("content_hash")]) == Some(Bytes(ContentHash(c, typ, data)))
  {
    EntityDecodes(c, typ, data);
    var v := ValueOf(Entity(c, typ, data));
    PathOne(v.m, Ascii("data"));
    PathOne(v.m, Ascii("type"));
    PathOne(v.m, Ascii("content_hash"));
    PathSplit(v, [Ascii("data")], [name]);
    assert [Ascii("data")] + [name] == [Ascii("data"), name];
  }

  lemma RootHashRead(s: Setup, e: Exec, n: nat)
    requires Ready(s, e, n)
    ensures Complete(Request(s, e, n))
    ensures Path(ValueOf(Request(s, e, n)), [Ascii("root"), Ascii("type")])
         == Some(Text(Ascii("system/protocol/execute")))
    ensures Path(ValueOf(Request(s, e, n)), [Ascii("root"), Ascii("content_hash")]) == Some(Bytes(RootHash(s, e, n)))
  {
    RequestDecodes(s, e, n);
    var root := Entity(s.crypto, EXECUTE, RootData(s, e, n));
    EntityDecodes(s.crypto, EXECUTE, RootData(s, e, n));
    IncludedComplete(s, e, n);
    CMapComplete(Included(s, e, n));
    EnvelopeDecodes(root, CMap(Included(s, e, n)));
    PathTwo(ValueOf(Request(s, e, n)).m, Ascii("root"), Ascii("type"));
    PathTwo(ValueOf(Request(s, e, n)).m, Ascii("root"), Ascii("content_hash"));
  }

  /** What a receiver reads at the signature's address: a signature entity whose target is the content
      hash the root carries, made over that hash with the impostor's key in both impostor arms and with
      the probe's otherwise, and naming the probe's address as signer except where the impostor acts
      under its own identity. */
  lemma SignatureReads(s: Setup, e: Exec, n: nat)
    requires Ready(s, e, n) && NoAlias(s.mat, SignatureHash(s, e, n))
    ensures Complete(Request(s, e, n))
    ensures var t := RootHash(s, e, n);
      && Path(ValueOf(Request(s, e, n)), [Ascii("root"), Ascii("content_hash")]) == Some(Bytes(t))
      && InSignature(s, e, n, [Ascii("type")]) == Some(Text(Ascii("system/signature")))
      && InSignature(s, e, n, [Ascii("content_hash")]) == Some(Bytes(SignatureHash(s, e, n)))
      && InSignature(s, e, n, [Ascii("data"), Ascii("target")]) == Some(Bytes(t))
      && InSignature(s, e, n, [Ascii("data"), Ascii("signer")]) == Some(Bytes(SignerNamed(s, e)))
      && InSignature(s, e, n, [Ascii("data"), Ascii("algorithm")]) == Some(Text(Ascii("ed25519")))
      && InSignature(s, e, n, [Ascii("data"), Ascii("signature")])
         == Some(Bytes(s.crypto.sign(SignsWith(s, e), t)))
  {
    RootHashRead(s, e, n);
    SignatureDataRead(s, e, n);
    SignatureField(s, e, n, Ascii("target"));
    SignatureField(s, e, n, Ascii("signer"));
    SignatureField(s, e, n, Ascii("algorithm"));
    SignatureField(s, e, n, Ascii("signature"));
  }

  lemma SignatureField(s: Setup, e: Exec, n: nat, name: Blob)
    requires Ready(s, e, n) && NoAlias(s.mat, SignatureHash(s, e, n))
    ensures Complete(Request(s, e, n)) && Complete(SignatureData(s, e, n))
    ensures InSignature(s, e, n, [Ascii("type")]) == Some(Text(Ascii("system/signature")))
    ensures InSignature(s, e, n, [Ascii("content_hash")]) == Some(Bytes(SignatureHash(s, e, n)))
    ensures InSignature(s, e, n, [Ascii("data"), name]) == Path(ValueOf(SignatureData(s, e, n)), [name])
  {
    SignatureComplete(s, e, n);
    InSignatureIs(s, e, n, [Ascii("type")]);
    InSignatureIs(s, e, n, [Ascii("content_hash")]);
    InSignatureIs(s, e, n, [Ascii("data"), name]);
    InData(s.crypto, SIGNATURE, SignatureData(s, e, n), name);
  }
}
