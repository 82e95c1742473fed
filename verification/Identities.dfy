/** What a session derives from the forwarded included entries: the responder's identifier, and the
    check of the carried content hashes. */
module Identities {
  import opened Options
  import opened Bytes
  import opened Heads
  import opened Decoder
  import opened CanonicalMap
  import opened Slicer
  import opened Denotation
  import opened Entities
  import opened Peers
  import opened Base58
  import opened Recoding
  import opened Lookups

  // ---------- the responder's peer id ----------

  /** What one forwarded entry says about a responder. */
  datatype Reading = Skipped | Candidate(pub: Blob) | Died

  datatype PeerId = Found(id: Blob) | NoCandidate | Ambiguous(count: nat) | Crashed

  function FieldOf(v: Value, name: Blob): Option<Value>
  {
    if v.Map? && name in v.m then Some(v.m[name]) else None
  }

  /** The public key carried by a decodable `system/peer` entry, unless it is empty or our own. */
  function ReadEntry(v: Blob, own: Blob): Reading
  {
    match Dec(v, 0)
    case Fail(e) => if e == Panic then Died else Skipped
    case Done(m, _) =>
      if FieldOf(m, Ascii("type")) != Some(Text(Ascii("system/peer"))) then Skipped
      else if FieldOf(m, Ascii("data")).None? then Skipped
      else
        var pub := FieldOf(FieldOf(m, Ascii("data")).value, Ascii("public_key"));
        if pub.Some? && pub.value.Bytes? && pub.value.b != [] && pub.value.b != own
        then Candidate(pub.value.b) else Skipped
  }

  /** The distinct responder keys among the forwarded entries. */
  function Keys(mat: seq<Pair>, own: Blob): set<Blob>
  {
    set i | 0 <= i < |mat| && ReadEntry(mat[i].v, own).Candidate? :: ReadEntry(mat[i].v, own).pub
  }

  /** Go slices: every length is an `int`. */
  predicate Slices(mat: seq<Pair>)
  {
    forall i :: 0 <= i < |mat| ==> |mat[i].k| < TWO_63 && |mat[i].v| < TWO_63
  }

  predicate Dies(mat: seq<Pair>, own: Blob)
  {
    exists i :: 0 <= i < |mat| && ReadEntry(mat[i].v, own).Died?
  }

  function Ids(keys: set<Blob>): set<Blob>
  {
    set k | k in keys :: PeerIdOf(k)
  }

  lemma {:induction false} IdsCount(keys: set<Blob>)
    ensures |Ids(keys)| == |keys|
  {
    if keys != {} {
      var k :| k in keys;
      var rest := keys - {k};
      IdsCount(rest);
      if PeerIdOf(k) in Ids(rest) {
        var l :| l in rest && PeerIdOf(l) == PeerIdOf(k);
        PeerIdInjective(k, l);
      }
      assert Ids(keys) == Ids(rest) + {PeerIdOf(k)};
    }
  }

  lemma KeysStep(mat: seq<Pair>, own: Blob, i: nat)
    requires i < |mat|
    ensures Keys(mat[..i + 1], own)
         == Keys(mat[..i], own)
          + (if ReadEntry(mat[i].v, own).Candidate? then {ReadEntry(mat[i].v, own).pub} else {})
  {
    var s, t := mat[..i], mat[..i + 1];
    forall k ensures k in Keys(t, own) <==>
        k in Keys(s, own) || ReadEntry(mat[i].v, own) == Candidate(k)
    {
      if j :| 0 <= j < |s| && ReadEntry(s[j].v, own) == Candidate(k) {
        assert t[j] == s[j];
      }
      if j :| 0 <= j < |t| && ReadEntry(t[j].v, own) == Candidate(k) {
        assert j < i ==> s[j] == t[j];
      }
      assert t[i] == mat[i];
    }
  }

  method ReadPeerEntry(v: Blob, own: Blob) returns (r: Reading)
    requires |v| < TWO_63
    ensures r == ReadEntry(v, own)
  {
    r := Skipped;
    var d := Decode(v, 0);
    if d.Fail? {
      if d.err == Panic {
        r := Died;
      }
      return;
    }
    if !d.value.Map? || Ascii("type") !in d.value.m
       || d.value.m[Ascii("type")] != Text(Ascii("system/peer")) {
      return;
    }
    if Ascii("data") !in d.value.m || !d.value.m[Ascii("data")].Map? {
      return;
    }
    var data := d.value.m[Ascii("data")].m;
    if Ascii("public_key") in data && data[Ascii("public_key")].Bytes? {
      var pub := data[Ascii("public_key")].b;
      if |pub| > 0 && pub != own {
        r := Candidate(pub);
      }
    }
  }

  method CollectIds(mat: seq<Pair>, own: Blob) returns (seen: set<Blob>, died: bool)
    requires Slices(mat)
    ensures died <==> Dies(mat, own)
    ensures !died ==> seen == Ids(Keys(mat, own))
  {
    seen, died := {}, false;
    var i := 0;
    while i < |mat|
      invariant 0 <= i <= |mat|
      invariant seen == Ids(Keys(mat[..i], own))
      invariant forall j :: 0 <= j < i ==> !ReadEntry(mat[j].v, own).Died?
    {
      var e := ReadPeerEntry(mat[i].v, own);
      KeysStep(mat, own, i);
      if e.Died? {
        return seen, true;
      } else if e.Candidate? {
        var id := EncodeBase58([1, 0] + e.pub);
        seen := seen + {id};
      }
      i := i + 1;
    }
    assert mat[..i] == mat;
  }

  lemma ReadEntity(c: Crypto, f: Sent, own: Blob)
    requires c.Sizes() && WellFormed(f)
    ensures ReadEntry(Encoded(c, f), own)
         == if f.Peer? && f.pub != [] && f.pub != own then Candidate(f.pub) else Skipped
  {
    match f
    case Peer(pub) =>
      PeerDataDecodes(pub);
      EntityDecodes(c, PEER, PeerData(pub));
    case Other(typ, data) =>
      EntityDecodes(c, typ, data);
  }

  /** What the scan reads out of material made of entities: the keys of the other peers. */
  lemma KeysOfEntities(c: Crypto, mat: seq<Pair>, sent: seq<Sent>, own: Blob)
    requires Carries(c, mat, sent)
    ensures !Dies(mat, own) && Keys(mat, own) == Responders(sent, own)
  {
    forall i | 0 <= i < |mat|
      ensures ReadEntry(mat[i].v, own)
           == if sent[i].Peer? && sent[i].pub != [] && sent[i].pub != own then Candidate(sent[i].pub) else Skipped
    {
      ReadEntity(c, sent[i], own);
    }
  }

  /** The verdict on some distinct keys: the identifier of the only one, none, or how many. */
  ghost predicate Decides(r: PeerId, keys: set<Blob>)
  {
    && (forall k :: keys == {k} ==> r == Found(PeerIdOf(k)))
    && (keys == {} ==> r == NoCandidate)
    && (|keys| >= 2 ==> r == Ambiguous(|keys|))
  }

  /** The loop collects identifiers; the verdict says which public keys were forwarded. It is one
      identifier exactly when all candidates carry one and the same key, and the count it reports
      otherwise is the number of distinct keys, because identifiers are injective. */
  method RemotePeerId(mat: seq<Pair>, own: Blob) returns (r: PeerId)
    requires Slices(mat)
    ensures forall c, sent :: Carries(c, mat, sent) ==> Decides(r, Responders(sent, own))
    ensures r == Crashed <==> Dies(mat, own)
    ensures !Dies(mat, own) ==>
      && (r == NoCandidate <==> Keys(mat, own) == {})
      && (r.Found? <==> exists k :: Keys(mat, own) == {k})
      && (forall k :: Keys(mat, own) == {k} ==> r == Found(PeerIdOf(k)))
      && (r.Ambiguous? ==> r.count == |Keys(mat, own)| && r.count >= 2)
  {
    var seen, died := CollectIds(mat, own);
    forall c, sent | Carries(c, mat, sent)
      ensures !Dies(mat, own) && Keys(mat, own) == Responders(sent, own)
    {
      KeysOfEntities(c, mat, sent, own);
    }
    if died {
      return Crashed;
    }
    r := VerdictOn(seen, Keys(mat, own));
  }

  /** The switch on the number of identifiers collected. */
  method VerdictOn(seen: set<Blob>, ghost keys: set<Blob>) returns (r: PeerId)
    requires seen == Ids(keys)
    ensures Decides(r, keys) && r != Crashed
    ensures r == NoCandidate <==> keys == {}
    ensures r.Found? <==> exists k :: keys == {k}
    ensures r.Ambiguous? ==> r.count == |keys| && r.count >= 2
  {
    IdsCount(keys);
    if |seen| == 1 {
      var id :| id in seen;
      r := Found(id);
      SingletonKeys(keys, id);
    } else if |seen| == 0 {
      r := NoCandidate;
    } else {
      r := Ambiguous(|seen|);
    }
  }

  lemma SingletonKeys(keys: set<Blob>, id: Blob)
    requires |keys| == 1 && id in Ids(keys)
    ensures exists k :: keys == {k}
    ensures forall k :: keys == {k} ==> id == PeerIdOf(k)
  {
    var k :| k in keys && PeerIdOf(k) == id;
    assert |keys - {k}| == 0;
    assert keys == {k};
  }

  // ---------- the self-check of forwarded entries ----------

  /** What the self-check says of one forwarded entry. */
  datatype Opinion = Fine | Bad | Dead

  function OnFailure(e: DecError): Opinion { if e == Panic then Dead else Bad }

  /** Whether one forwarded entry counts against the session: its key must be readable, and if it
      is a hash of format 0 the entry must be a map whose content_hash field repeats it. The field
      is compared as carried; type and data are not hashed again. */
  function Judge(e: Pair): Opinion
  {
    match Dec(e.k, 0)
    case Fail(err) => OnFailure(err)
    case Done(k, _) =>
      if !k.Bytes? || k.b == [] || k.b[0] != 0 then Fine
      else
        match Dec(e.v, 0)
        case Fail(err) => OnFailure(err)
        case Done(v, _) => if FieldOf(v, Ascii("content_hash")) == Some(Bytes(k.b)) then Fine else Bad
  }

  /** The opinion on every entry, spelled out: dead where the decoder dies on the key, or on the value
      of an entry under a hash of format 0; bad where the key is not decodable, or such an entry's value
      is not a map whose content_hash is the key; fine otherwise, whatever is filed under a hash of
      another format, an empty byte string or a key of another kind. */
  lemma JudgeExactly(e: Pair)
    ensures var k, v := Dec(e.k, 0), Dec(e.v, 0);
      var checked := k.Done? && k.value.Bytes? && |k.value.b| > 0 && k.value.b[0] == 0;
      && (Judge(e) == Dead <==> k == Fail(Panic) || (checked && v == Fail(Panic)))
      && (Judge(e) == Bad <==>
            || (k.Fail? && k.err != Panic)
            || (checked && v.Fail? && v.err != Panic)
            || (checked && v.Done? && !v.value.Map?)
            || (checked && v.Done? && v.value.Map?
                && (Ascii("content_hash") !in v.value.m || v.value.m[Ascii("content_hash")] != k.value)))
      && (Judge(e) == Fine <==>
            || (k.Done? && !checked)
            || (checked && v.Done? && v.value.Map?
                && Ascii("content_hash") in v.value.m && v.value.m[Ascii("content_hash")] == k.value))
  {}

  predicate EntryBad(e: Pair) { Judge(e) == Bad }

  function BadCount(mat: seq<Pair>): nat
  {
    if mat == [] then 0
    else BadCount(mat[..|mat| - 1]) + (if EntryBad(mat[|mat| - 1]) then 1 else 0)
  }

  method JudgeEntry(e: Pair) returns (o: Opinion)
    requires |e.k| < TWO_63 && |e.v| < TWO_63
    ensures o == Judge(e)
  {
    var k := Decode(e.k, 0);
    if k.Fail? {
      return OnFailure(k.err);
    }
    if !k.value.Bytes? || |k.value.b| == 0 || k.value.b[0] != 0 {
      return Fine;
    }
    var v := Decode(e.v, 0);
    if v.Fail? {
      return OnFailure(v.err);
    }
    if !v.value.Map? {
      return Bad;
    }
    if Ascii("content_hash") !in v.value.m || v.value.m[Ascii("content_hash")] != Bytes(k.value.b) {
      return Bad;
    }
    return Fine;
  }

  /** Counts the bad entries, unless an entry's declared length stops the program. */
  method VerifyCapMat(mat: seq<Pair>) returns (bad: nat, died: bool)
    requires Slices(mat)
    ensures died <==> exists i :: 0 <= i < |mat| && Judge(mat[i]) == Dead
    ensures !died ==> bad == BadCount(mat)
  {
    bad, died := 0, false;
    var i := 0;
    while i < |mat|
      invariant 0 <= i <= |mat| && bad == BadCount(mat[..i])
      invariant forall j :: 0 <= j < i ==> Judge(mat[j]) != Dead
    {
      assert mat[..i + 1][..i] == mat[..i];
      var o := JudgeEntry(mat[i]);
      if o == Dead {
        return bad, true;
      } else if o == Bad {
        bad := bad + 1;
      }
      i := i + 1;
    }
    assert mat[..i] == mat;
  }

  /** The content hash an entry's value claims. */
  function Claimed(v: Blob): Option<Blob>
  {
    if Dec(v, 0).Fail? then None
    else
      match FieldOf(Dec(v, 0).value, Ascii("content_hash"))
      case Some(Bytes(h)) => Some(h)
      case _ => None
  }

  /** The content hash computed again, from the type and the raw bytes of the data as they stand in
      the value; none, where it is not a map with a text type and data. */
  function Rehashed(c: Crypto, v: Blob): Option<Blob>
  {
    if !IsMap(v) then None
    else
      var data := RawField(v, Ascii("data"));
      match FieldOf(Dec(v, 0).value, Ascii("type"))
      case Some(Text(typ)) => if data.At? then Some(ContentHash(c, typ, data.raw)) else None
      case _ => None
  }

  /** What is hashed again is what was decoded: in a map whose names are apart, with a text type and
      data, the raw bytes are one complete item whose value is the decoded data field. */
  lemma RehashesWhatIsDecoded(c: Crypto, v: Blob, typ: Blob)
    requires IsMap(v) && NamesApart(TopEntries(v))
    requires FieldOf(Dec(v, 0).value, Ascii("type")) == Some(Text(typ))
    ensures var data, raw := FieldOf(Dec(v, 0).value, Ascii("data")), RawField(v, Ascii("data"));
      && (data.Some? <==> raw.At?) && (data.Some? <==> Rehashed(c, v).Some?)
      && (raw.At? ==>
            Complete(raw.raw) && data == Some(ValueOf(raw.raw)) && Rehashed(c, v) == Some(ContentHash(c, typ, raw.raw)))
  {
    LabelsAreNotHex();
    RawFieldIsDecoded(v, Ascii("data"));
  }

  /** The check the documentation promises reports an entry exactly when hashing its type and data
      again does not give the key. What the code reports about any entry, honest or forged, filed under
      a hash of format 0, with a text type and data and names apart, agrees with that exactly when the
      claim is the true hash, or the key is neither the claim nor the true hash. The true hash is that of
      a complete item with the decoded data's value. */
  lemma SelfCheckExactly(c: Crypto, e: Pair, key: Blob, typ: Blob)
    requires Dec(e.k, 0).Done? && Dec(e.k, 0).value == Bytes(key) && key != [] && key[0] == 0
    requires IsMap(e.v) && NamesApart(TopEntries(e.v))
    requires FieldOf(Dec(e.v, 0).value, Ascii("type")) == Some(Text(typ))
    requires FieldOf(Dec(e.v, 0).value, Ascii("data")).Some?
    ensures var raw := RawField(e.v, Ascii("data"));
      && raw.At? && Complete(raw.raw)
      && FieldOf(Dec(e.v, 0).value, Ascii("data")) == Some(ValueOf(raw.raw))
      && var h, claim := ContentHash(c, typ, raw.raw), Claimed(e.v);
         && Rehashed(c, e.v) == Some(h)
         && ((EntryBad(e) <==> key != h) <==> claim == Some(h) || (claim != Some(key) && key != h))
  {
    RehashesWhatIsDecoded(c, e.v, typ);
  }

  lemma ClaimComplete(typ: Blob, data: Blob, claim: Blob)
    requires Complete(data) && |typ| < TWO_64 && |claim| < TWO_64
    ensures var ps, k := Claiming(typ, data, claim), Txt(Ascii("data"));
      && AllComplete(ps) && |ps| == 3 && FirstValue(ps, k) == Some(data)
      && forall i :: 0 <= i < |ps| && ValueOf(ps[i].k) == Text(Ascii("data")) ==> ps[i].k == k
  {
    var ps, labels := Claiming(typ, data, claim), [Ascii("type"), Ascii("data"), Ascii("content_hash")];
    StringComplete(typ);
    StringComplete(claim);
    BasisLabelled(typ, data, claim);
    LabelledComplete(ps, labels);
    LabelledValues(ps, labels, ps[1].k);
    forall i | 0 <= i < |ps| ensures ValueOf(ps[i].k) == Text(labels[i]) {
      StringComplete(labels[i]);
    }
  }

  /** Hashing again what was encoded gives its content hash, whatever hash it claims. */
  lemma RehashedClaim(c: Crypto, typ: Blob, data: Blob, claim: Blob)
    requires Complete(data) && |typ| < TWO_64 && |claim| < TWO_64
    ensures var v := CMap(Claiming(typ, data, claim));
      Complete(v) && Claimed(v) == Some(claim) && Rehashed(c, v) == Some(ContentHash(c, typ, data))
  {
    ClaimDecodes(typ, data, claim);
    ClaimComplete(typ, data, claim);
    DataFound(Claiming(typ, data, claim), Txt(Ascii("data")), Ascii("data"), data);
    RehashedFrom(c, CMap(Claiming(typ, data, claim)), typ, data);
  }

  lemma RehashedFrom(c: Crypto, v: Blob, typ: Blob, data: Blob)
    requires IsMap(v) && FieldOf(Dec(v, 0).value, Ascii("type")) == Some(Text(typ))
    requires RawField(v, Ascii("data")) == At(data)
    ensures Rehashed(c, v) == Some(ContentHash(c, typ, data))
  {}

  /** In an encoded map a text key written by the encoder is found by its text. */
  lemma DataFound(ps: seq<Pair>, k: Blob, name: Blob, v: Blob)
    requires AllComplete(ps) && |ps| < TWO_64 && |name| < TWO_64
    requires k == Txt(name) && FirstValue(ps, k) == Some(v)
    requires forall i :: 0 <= i < |ps| && ValueOf(ps[i].k) == Text(name) ==> ps[i].k == k
    ensures IsMap(CMap(ps)) && RawField(CMap(ps), name) == At(v)
  {
    var m, es := CMap(ps), Canonical(ps);
    CMapComplete(ps);
    CanonicalComplete(ps);
    CanonicalFacts(ps);
    HeadInFront(5, |es|, Flatten(es));
    StringComplete(name);
    assert WithKey(es, k) == [v];
    var i := OccursAt(es, k);
    WithKeyStrict(es, i);
    forall j | 0 <= j < i ensures ValueOf(es[j].k) != Text(name) {
      assert es[j] in es && es[j] in ps;
      KeyOrderTotal(es[j].k, es[i].k);
    }
    FindAmong(es, m, |Head(5, |es|)|, |es|, i, Text(name));
  }

  /** For every type, data, claimed hash and key: what the code reports, and when it is right. */
  lemma SelfCheckOfClaims(c: Crypto, typ: Blob, data: Blob, claim: Blob, key: Blob)
    requires c.Sizes() && Complete(data) && |typ| < TWO_64 && |claim| < TWO_64
    requires key != [] && key[0] == 0 && |key| < TWO_64
    ensures var h, e := ContentHash(c, typ, data), Pair(Bstr(key), CMap(Claiming(typ, data, claim)));
      && Rehashed(c, e.v) == Some(h)
      && Judge(e) == (if key == claim then Fine else Bad)
      && ((EntryBad(e) <==> key != h) <==> claim == h || (key != claim && key != h))
  {
    RehashedClaim(c, typ, data, claim);
    ClaimDecodes(typ, data, claim);
    StringComplete(key);
  }

  /** An entity filed under its own content hash is never counted, and one filed under another hash
      of format 0 always is: this is the check the documentation promises. */
  lemma HonestEntryCheck(c: Crypto, typ: Blob, data: Blob, h: Blob)
    requires c.Sizes() && Complete(data) && |typ| < TWO_64
    requires h != [] && h[0] == 0 && |h| < TWO_64
    ensures EntryBad(Pair(Bstr(h), Entity(c, typ, data))) <==> h != ContentHash(c, typ, data)
  {
    SelfCheckOfClaims(c, typ, data, ContentHash(c, typ, data), h);
  }

  /** The carried field is not recomputed: any data passes under any hash it claims to have. */
  lemma ForgedEntryPasses(typ: Blob, data: Blob, h: Blob)
    requires Complete(data) && |typ| < TWO_64 && |h| < TWO_64
    ensures !EntryBad(Pair(Bstr(h), CMap(Claiming(typ, data, h))))
  {
    ClaimDecodes(typ, data, h);
    StringComplete(h);
  }

  lemma {:induction false} NoneBad(mat: seq<Pair>)
    requires forall e :: e in mat ==> Judge(e) == Fine
    ensures BadCount(mat) == 0
  {
    if mat != [] {
      NoneBad(mat[..|mat| - 1]);
    }
  }

  /** Slicing an included map of correctly filed entities out of its envelope leaves nothing for the
      self-check to report: a non-zero count means a key that does not match, never the slicing. */
  lemma SlicedEntitiesPassTheCheck(c: Crypto, root: Blob, typs: seq<Blob>, datas: seq<Blob>)
    requires c.Sizes() && Complete(root) && |typs| == |datas| < 0x1_0000
    requires forall i :: 0 <= i < |typs| ==> |typs[i]| < TWO_64 && Complete(datas[i])
    ensures var ps := FiledEntities(c, typs, datas);
      && RawIncluded(Envelope(root, CMap(ps))).Entries?
      && BadCount(RawIncluded(Envelope(root, CMap(ps))).ps) == 0
  {
    var ps := FiledEntities(c, typs, datas);
    forall i | 0 <= i < |ps| ensures Complete(ps[i].k) && Complete(ps[i].v) && Judge(ps[i]) == Fine {
      var h := ContentHash(c, typs[i], datas[i]);
      assert |h| == 33;
      StringComplete(h);
      EntityDecodes(c, typs[i], datas[i]);
      SelfCheckOfClaims(c, typs[i], datas[i], h, h);
    }
    VerbatimReplay(root, ps);
    CanonicalComplete(ps);
    NoneBad(Canonical(ps));
  }

  function FiledEntities(c: Crypto, typs: seq<Blob>, datas: seq<Blob>): (ps: seq<Pair>)
    requires |typs| == |datas|
    ensures |ps| == |typs|
    ensures forall i :: 0 <= i < |ps| ==>
      ps[i] == Pair(Bstr(ContentHash(c, typs[i], datas[i])), Entity(c, typs[i], datas[i]))
  {
    seq(|typs|, i requires 0 <= i < |typs| =>
      Pair(Bstr(ContentHash(c, typs[i], datas[i])), Entity(c, typs[i], datas[i])))
  }

  /** Forwarded material that was sliced out of an envelope stops neither scan: every entry decodes,
      even where the envelope around it does not. */
  lemma SlicedMaterialIsSafe(env: Blob, own: Blob)
    requires RawIncluded(env).Entries?
    ensures var mat := RawIncluded(env).ps;
      !Dies(mat, own) && forall i :: 0 <= i < |mat| ==> Judge(mat[i]) != Dead
  {
    IncludedIsComplete(env);
  }
}
