/** Encoded arrays and their decoding. */
module Arrays {
  import opened Bytes
  import opened Heads
  import opened Decoder

  function Concat(vs: seq<Blob>): Blob
  {
    if vs == [] then [] else vs[0] + Concat(vs[1..])
  }

  function Arr(vs: seq<Blob>): Blob
  {
    Head(4, |vs|) + Concat(vs)
  }

  method WriteArr(vs: seq<Blob>) returns (out: Blob)
    requires |vs| < TWO_64
    ensures out == Arr(vs)
  {
    out := WriteHead(4, |vs|);
    var i := 0;
    assert vs[0..] == vs;
    while i < |vs|
      invariant 0 <= i <= |vs|
      invariant out + Concat(vs[i..]) == Arr(vs)
    {
      assert vs[i..][1..] == vs[i + 1..];
      assert out + Concat(vs[i..]) == out + vs[i] + Concat(vs[i + 1..]);
      out := out + vs[i];
      i := i + 1;
    }
    assert out + [] == out;
  }

  // ---------- arrays of complete items ----------

  ghost predicate AllItems(vs: seq<Blob>, values: seq<Value>)
  {
    |vs| == |values| && forall i :: 0 <= i < |vs| ==> Complete(vs[i]) && ValueOf(vs[i]) == values[i]
  }

  lemma {:induction false} ItemsOfConcat(vs: seq<Blob>, values: seq<Value>, b: Blob, p: nat)
    requires AllItems(vs, values)
    requires p <= |b| && b[p..] == Concat(vs)
    ensures DecItems(b, p, |vs|) == Done(values, |b|)
  {
    if vs == [] {
      assert values == [];
    } else {
      var q := p + |vs[0]|;
      var t := b[p..];
      assert |t| == |vs[0]| + |Concat(vs[1..])|;
      assert b[p..q] == t[..|vs[0]|] == vs[0];
      assert b[q..] == t[|vs[0]|..] == Concat(vs[1..]);
      DecAt(b, p, vs[0]);
      ItemsOfConcat(vs[1..], values[1..], b, q);
      ItemsUnfold(b, p, |vs|, values[0], q, values[1..], |b|);
      assert values == [values[0]] + values[1..];
    }
  }

  lemma ArrComplete(vs: seq<Blob>, values: seq<Value>)
    requires AllItems(vs, values) && |vs| < TWO_64
    ensures Complete(Arr(vs)) && ValueOf(Arr(vs)) == Array(values)
  {
    var h := Head(4, |vs|);
    var s := Arr(vs);
    assert s[0..|h|] == h && s[|h|..] == Concat(vs);
    ReadWrittenHead(4, |vs|, s, 0);
    ItemsOfConcat(vs, values, s, |h|);
    assert DecBody(s, |h|, 4, |vs|) == Done(Array(values), |s|);
  }
}
