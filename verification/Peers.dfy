/** Peer entities and the material they are forwarded in. */
module Peers {
  import opened Bytes
  import opened Heads
  import opened Decoder
  import opened CanonicalMap
  import opened Slicer
  import opened Entities

  const PEER: Blob := Ascii("system/peer")

  function PeerFields(pub: Blob): seq<Pair>
  {
    [Pair(Txt(Ascii("public_key")), Bstr(pub)), Pair(Txt(Ascii("key_type")), Txt(Ascii("ed25519")))]
  }

  function PeerData(pub: Blob): Blob
  {
    CMap(PeerFields(pub))
  }

  lemma PeerLabelled(pub: Blob)
    requires |pub| < TWO_64
    ensures var labels := [Ascii("public_key"), Ascii("key_type")];
      Labelled(PeerFields(pub), labels) && AllComplete(PeerFields(pub))
  {
    var labels := [Ascii("public_key"), Ascii("key_type")];
    assert Ascii("public_key")[0] != Ascii("key_type")[0];
    StringComplete(pub);
    StringComplete(Ascii("ed25519"));
    LabelledComplete(PeerFields(pub), labels);
  }

  lemma PeerDataComplete(pub: Blob)
    requires |pub| < TWO_64
    ensures Complete(PeerData(pub))
  {
    PeerLabelled(pub);
    CMapComplete(PeerFields(pub));
  }

  /** A peer's data decodes to its public key and the name of its key type. */
  lemma PeerDataDecodes(pub: Blob)
    requires |pub| < TWO_64
    ensures Complete(PeerData(pub)) && ValueOf(PeerData(pub)).Map?
    ensures var m := ValueOf(PeerData(pub)).m;
      && Ascii("public_key") in m && m[Ascii("public_key")] == Bytes(pub)
      && Ascii("key_type") in m && m[Ascii("key_type")] == Text(Ascii("ed25519"))
  {
    var labels := [Ascii("public_key"), Ascii("key_type")];
    PeerLabelled(pub);
    StringComplete(pub);
    StringComplete(Ascii("ed25519"));
    FieldBinding(PeerFields(pub), labels, 0);
    FieldBinding(PeerFields(pub), labels, 1);
  }

  // ---------- material made of entities ----------

  /** An entity of a peer, or of any other type. */
  datatype Sent = Peer(pub: Blob) | Other(typ: Blob, data: Blob)

  function Encoded(c: Crypto, f: Sent): Blob
  {
    match f
    case Peer(pub) => Entity(c, PEER, PeerData(pub))
    case Other(typ, data) => Entity(c, typ, data)
  }

  ghost predicate WellFormed(f: Sent)
  {
    match f
    case Peer(pub) => |pub| < TWO_64
    case Other(typ, data) => |typ| < TWO_64 && typ != PEER && Complete(data)
  }

  /** The material's values are the given entities, filed under whatever keys. */
  ghost predicate Carries(c: Crypto, mat: seq<Pair>, sent: seq<Sent>)
  {
    && c.Sizes() && |mat| == |sent|
    && forall i :: 0 <= i < |mat| ==> WellFormed(sent[i]) && mat[i].v == Encoded(c, sent[i])
  }

  /** The public keys of the peers other than ourselves. */
  function Responders(sent: seq<Sent>, own: Blob): set<Blob>
  {
    set i | 0 <= i < |sent| && sent[i].Peer? && sent[i].pub != [] && sent[i].pub != own :: sent[i].pub
  }
}
