/** Reading one field of a map twice: as the raw bytes a walk over the entries finds, and as the value
    the decoder stores. Where no two entries have one decoded name the two agree. */
module Lookups {
  import opened Options
  import opened Bytes
  import opened Heads
  import opened Decoder
  import opened CanonicalMap
  import opened Slicer
  import opened Denotation
  import opened Recoding

  // ---------- the entries of a decoded map ----------

  predicate IsMap(b: Blob)
  {
    Dec(b, 0).Done? && Dec(b, 0).value.Map?
  }

  lemma MapStarts(b: Blob)
    requires IsMap(b)
    ensures var h := ReadHead(b, 0);
      && h.GoodHead? && h.major == 5 && DecBindings(b, h.next, h.arg).Done?
      && Dec(b, 0).value == Map(MapOf(DecBindings(b, h.next, h.arg).value))
  {
    var h := ReadHead(b, 0);
    assert h.GoodHead?;
    DecUnfold(b, 0, h.major, h.arg, h.next);
  }

  /** The raw entries of a map, in the order in which they are written. */
  function TopEntries(b: Blob): (es: seq<Pair>)
    requires IsMap(b)
    ensures AllComplete(es) && |es| < TWO_64
  {
    MapStarts(b);
    var h := ReadHead(b, 0);
    SpansWhereBindings(b, h.next, h.arg);
    SpansFacts(b, h.next, h.arg);
    Spans(b, h.next, h.arg).value
  }

  lemma TopMap(b: Blob)
    requires IsMap(b)
    ensures Dec(b, 0).value == Map(MapOf(Bindings(TopEntries(b))))
  {
    MapStarts(b);
    var h := ReadHead(b, 0);
    SpansWhereBindings(b, h.next, h.arg);
    SpansFacts(b, h.next, h.arg);
  }

  /** The value of the first entry whose key decodes to `wanted`. */
  function FirstMatch(es: seq<Pair>, wanted: Value): Lookup
    requires AllComplete(es)
  {
    if es == [] then Absent
    else if ValueOf(es[0].k) == wanted then At(es[0].v)
    else FirstMatch(es[1..], wanted)
  }

  lemma WalkFront(b: Blob, p: nat, n: nat, left: nat, e: Pair, q: nat, es: seq<Pair>, wanted: Value)
    requires Span(b, p) == Done(e, q) && n == left + 1
    requires Complete(e.k) && Complete(e.v) && AllComplete(es) && AllComplete([e] + es)
    requires FindKey(b, q, left, wanted) == FirstMatch(es, wanted)
    ensures FindKey(b, p, n, wanted) == FirstMatch([e] + es, wanted)
  {
    var k := Dec(b, p);
    SpanIsComplete(b, p);
    FindUnfold(b, p, left, k.value, k.next, Dec(b, k.next).value, q, wanted);
    assert ([e] + es)[1..] == es;
  }

  lemma {:induction false} WalkFinds(b: Blob, p: nat, n: nat, wanted: Value)
    requires p <= |b| && Spans(b, p, n).Done?
    ensures AllComplete(Spans(b, p, n).value)
    ensures FindKey(b, p, n, wanted) == FirstMatch(Spans(b, p, n).value, wanted)
    decreases n
  {
    if n > 0 {
      var left := n - 1;
      var e, q, es, q' := SpansParts(b, p, n);
      SpanFacts(b, p);
      WalkFinds(b, q, left, wanted);
      CompleteCons(e, es);
      WalkFront(b, p, n, left, e, q, es, wanted);
    }
  }

  /** The raw bytes a walk over the entries finds first under a text. */
  function RawField(b: Blob, text: Blob): Lookup
    requires IsMap(b)
  {
    FindKey(b, ReadHead(b, 0).next, ReadHead(b, 0).arg, Text(text))
  }

  lemma RawFieldFinds(b: Blob, text: Blob)
    requires IsMap(b)
    ensures RawField(b, text) == FirstMatch(TopEntries(b), Text(text))
  {
    MapStarts(b);
    var h := ReadHead(b, 0);
    SpansWhereBindings(b, h.next, h.arg);
    WalkFinds(b, h.next, h.arg, Text(text));
  }

  // ---------- the first raw value is the value decoded ----------

  lemma {:induction false} MatchPlace(es: seq<Pair>, wanted: Value) returns (i: nat)
    requires AllComplete(es) && FirstMatch(es, wanted).At?
    ensures i < |es| && ValueOf(es[i].k) == wanted && FirstMatch(es, wanted) == At(es[i].v)
  {
    if ValueOf(es[0].k) == wanted {
      i := 0;
    } else {
      var k := MatchPlace(es[1..], wanted);
      i := k + 1;
    }
  }

  lemma {:induction false} NoMatch(es: seq<Pair>, wanted: Value, i: nat)
    requires AllComplete(es) && !FirstMatch(es, wanted).At? && i < |es|
    ensures FirstMatch(es, wanted) == Absent && ValueOf(es[i].k) != wanted
  {
    if i > 0 {
      NoMatch(es[1..], wanted, i - 1);
    } else if |es| > 1 {
      NoMatch(es[1..], wanted, 0);
    }
  }

  /** A text that no byte string spells in hexadecimal. */
  ghost predicate NotHex(text: Blob)
  {
    forall b :: Hex(b) != text
  }

  lemma {:induction false} HexDigits(b: Blob, i: nat)
    requires i < |Hex(b)|
    ensures Hex(b)[i] <= 57 || 97 <= Hex(b)[i] <= 102
  {
    if i >= 2 {
      HexDigits(b[1..], i - 2);
    }
  }

  lemma LabelsAreNotHex()
    ensures NotHex(Ascii("data")) && NotHex(Ascii("included"))
  {
    forall b ensures Hex(b) != Ascii("data") && Hex(b) != Ascii("included") {
      if Hex(b) == Ascii("data") {
        HexDigits(b, 2);
      } else if Hex(b) == Ascii("included") {
        HexDigits(b, 0);
      }
    }
  }

  lemma OnlyBinding(es: seq<Pair>, i: nat, name: Blob)
    requires AllComplete(es) && NamesApart(es) && i < |es| && Name(es[i].k) == Some(name)
    ensures var m := MapOf(Bindings(es)); name in m && m[name] == ValueOf(es[i].v)
  {
    var kvs := Bindings(es);
    forall j | i < j < |kvs| ensures NameOf(kvs[j].0) != Some(name) {
      assert Name(es[i].k) != Name(es[j].k);
    }
    MapOfLast(kvs, i, name);
  }

  /** Where the names are apart, the first raw value under a text is what the decoder stores. */
  lemma MatchIsDecoded(es: seq<Pair>, text: Blob)
    requires AllComplete(es) && NamesApart(es) && NotHex(text)
    ensures var m, raw := MapOf(Bindings(es)), FirstMatch(es, Text(text));
      && (raw.At? <==> text in m)
      && (raw.At? ==> Complete(raw.raw) && m[text] == ValueOf(raw.raw))
  {
    var m, kvs := MapOf(Bindings(es)), Bindings(es);
    MapOfNames(kvs, text);
    if FirstMatch(es, Text(text)).At? {
      var i := MatchPlace(es, Text(text));
      OnlyBinding(es, i, text);
    } else if text in m {
      var i :| 0 <= i < |kvs| && NameOf(kvs[i].0) == Some(text);
      NoMatch(es, Text(text), i);
    }
  }

  /** In a map whose names are apart, the raw bytes found first under a text are one complete item, and
      its value is the one the decoder stores; nothing is found exactly where nothing is stored. */
  lemma RawFieldIsDecoded(b: Blob, text: Blob)
    requires IsMap(b) && NamesApart(TopEntries(b)) && NotHex(text)
    ensures var m, raw := Dec(b, 0).value.m, RawField(b, text);
      && (raw.At? <==> text in m)
      && (raw.At? ==> Complete(raw.raw) && m[text] == ValueOf(raw.raw))
  {
    TopMap(b);
    RawFieldFinds(b, text);
    MatchIsDecoded(TopEntries(b), text);
  }

  /** Where the slicer accepts a whole item, its entries are the item's. */
  lemma SlicedEntries(raw: Blob)
    requires Complete(raw) && RawMapEntries(raw).Entries?
    ensures IsMap(raw) && RawMapEntries(raw).ps == TopEntries(raw)
  {
    HeaderIsHead(raw);
    BodyOf(raw);
    BodyOfMap(raw, |HeadOf(raw)|, Arg(raw));
  }
}
