/** The recursive, cursor-based decoder: what it computes, that it moves forward inside the
    buffer, and that a decoded item depends on its own bytes alone. */
module Decoder {
  import opened Options
  import opened Bytes
  import opened Heads

  /** Decoded items. A map is keyed by Go strings, which are byte strings: a text key is its own
      bytes, a byte-string key is its hexadecimal form, keys of any other kind are dropped. */
  datatype Value =
    | UInt(n: nat)
    | Negative(i: int)
    | Bytes(b: Blob)
    | Text(s: Blob)
    | Array(items: seq<Value>)
    | Map(m: map<Blob, Value>)
    | Bool(t: bool)
    | Nil

  datatype Decoded<+T> = Fail(err: DecError) | Done(value: T, next: nat)

  type Binding = (Value, Value)

  /** Conversion to a 64-bit `int`, and the result of 64-bit arithmetic: the integer modulo 2^64. */
  function Int64(n: int): (i: int)
    ensures -TWO_63 <= i < TWO_63 && (i - n) % TWO_64 == 0
    ensures -TWO_63 <= n < TWO_63 ==> i == n
  {
    (n + TWO_63) % TWO_64 - TWO_63
  }

  /** `-1 - int64(arg)`. */
  function NegativeOf(arg: nat): (i: int)
    ensures -TWO_63 <= i < TWO_63
    ensures arg < TWO_63 ==> i == -1 - arg
    ensures TWO_63 <= arg < TWO_64 ==> i == TWO_64 - 1 - arg
  {
    Int64(-1 - Int64(arg))
  }

  /** The bytes of a string with its end in front of them; the end decides the outcome. */
  function ReadString(b: Blob, q: nat, arg: nat, short: DecError): (r: Decoded<Blob>)
    ensures r.Done? ==> q <= r.next <= |b|
  {
    if q + arg <= |b| then Done(b[q..q + arg], q + arg)
    else if q + arg >= TWO_63 then Fail(Panic)
    else Fail(short)
  }

  /** The statements of the source: the sum `p+int(arg)` in 64-bit arithmetic, its comparison with
      the buffer's length, and the slice expression, which panics when its bounds are reversed. */
  function SliceString(b: Blob, q: nat, arg: nat, short: DecError): Decoded<Blob>
  {
    var end := Int64(q + Int64(arg));
    if end > |b| then Fail(short)
    else if end < q then Fail(Panic)
    else Done(b[q..end], end)
  }

  /** In a buffer whose length is an `int`, the sum wraps exactly when the end is not representable,
      and then it always passes the comparison and reverses the slice's bounds. */
  lemma StringPanicsExactlyWhen(b: Blob, q: nat, arg: nat, short: DecError)
    requires q <= |b| < TWO_63 && arg < TWO_64 && short != Panic
    ensures SliceString(b, q, arg, short) == ReadString(b, q, arg, short)
    ensures SliceString(b, q, arg, short) == Fail(Panic) <==> q + arg >= TWO_63
    ensures SliceString(b, q, arg, short).Done? <==> q + arg <= |b|
  {}

  function NameOf(key: Value): (name: Option<Blob>)
  {
    match key
    case Text(s) => Some(s)
    case Bytes(b) => Some(Hex(b))
    case _ => None
  }

  function Put(m: map<Blob, Value>, kv: Binding): map<Blob, Value>
  {
    if NameOf(kv.0).Some? then m[NameOf(kv.0).value := kv.1] else m
  }

  /** The Go map after storing the bindings one after the other. */
  function MapOf(kvs: seq<Binding>): map<Blob, Value>
  {
    if kvs == [] then map[] else Put(MapOf(kvs[..|kvs| - 1]), kvs[|kvs| - 1])
  }

  function Simple(arg: nat): Value
  {
    if arg == 20 then Bool(false) else if arg == 21 then Bool(true) else Nil
  }

  function Dec(b: Blob, p: nat): (r: Decoded<Value>)
    ensures r.Done? ==> p < r.next <= |b|
    decreases |b| - p, 0
  {
    match ReadHead(b, p)
    case BadHead(e) => Fail(e)
    case GoodHead(major, arg, q) => DecBody(b, q, major, arg)
  }

  function DecBody(b: Blob, q: nat, major: nat, arg: nat): (r: Decoded<Value>)
    requires q <= |b| && arg < TWO_64
    ensures r.Done? ==> q <= r.next <= |b|
    decreases |b| - q, 3
  {
    if major == 0 then Done(UInt(arg), q)
    else if major == 1 then Done(Negative(NegativeOf(arg)), q)
    else if major == 2 then
      match ReadString(b, q, arg, TruncatedBytes) {
        case Fail(e) => Fail(e)
        case Done(s, n) => Done(Bytes(s), n)
      }
    else if major == 3 then
      match ReadString(b, q, arg, TruncatedText) {
        case Fail(e) => Fail(e)
        case Done(s, n) => Done(Text(s), n)
      }
    else if major == 4 then
      match DecItems(b, q, arg) {
        case Fail(e) => Fail(e)
        case Done(vs, n) => Done(Array(vs), n)
      }
    else if major == 5 then
      match DecBindings(b, q, arg) {
        case Fail(e) => Fail(e)
        case Done(kvs, n) => Done(Map(MapOf(kvs)), n)
      }
    else if major == 7 then Done(Simple(arg), q)
    else Fail(Unsupported(major))
  }

  function DecItems(b: Blob, p: nat, n: nat): (r: Decoded<seq<Value>>)
    requires p <= |b|
    ensures r.Done? ==> p <= r.next <= |b|
    decreases |b| - p, 1
  {
    if n == 0 then Done([], p)
    else
      match Dec(b, p)
      case Fail(e) => Fail(e)
      case Done(v, q) =>
        match DecItems(b, q, n - 1)
        case Fail(e) => Fail(e)
        case Done(vs, q') => Done([v] + vs, q')
  }

  /** One key and its value. */
  function DecBinding(b: Blob, p: nat): (r: Decoded<Binding>)
    ensures r.Done? ==> p < r.next <= |b|
    decreases |b| - p, 1
  {
    match Dec(b, p)
    case Fail(e) => Fail(e)
    case Done(k, q) =>
      match Dec(b, q)
      case Fail(e) => Fail(e)
      case Done(v, q') => Done((k, v), q')
  }

  function DecBindings(b: Blob, p: nat, n: nat): (r: Decoded<seq<Binding>>)
    requires p <= |b|
    ensures r.Done? ==> p <= r.next <= |b|
    decreases |b| - p, 2
  {
    if n == 0 then Done([], p)
    else
      match DecBinding(b, p)
      case Fail(e) => Fail(e)
      case Done(kv, q) =>
        match DecBindings(b, q, n - 1)
        case Fail(e) => Fail(e)
        case Done(kvs, q') => Done([kv] + kvs, q')
  }

  // ---------- the decoder as it runs: a cursor and loops ----------

  /** What remains to be decoded, put behind what has been decoded already. */
  function After<T>(done: seq<T>, r: Decoded<seq<T>>): Decoded<seq<T>>
  {
    match r
    case Fail(e) => Fail(e)
    case Done(vs, n) => Done(done + vs, n)
  }

  lemma AfterNothing<T>(r: Decoded<seq<T>>)
    ensures After([], r) == r
  {
    if r.Done? {
      assert [] + r.value == r.value;
    }
  }

  method ReadArgument(b: Blob, p0: nat, w: nat) returns (arg: nat)
    requires p0 + w <= |b|
    ensures arg == FromBigEndian(b[p0..p0 + w])
  {
    arg := 0;
    var i := 0;
    while i < w
      invariant 0 <= i <= w
      invariant arg == FromBigEndian(b[p0..p0 + i])
    {
      assert b[p0..p0 + i + 1][..i] == b[p0..p0 + i];
      arg := 256 * arg + b[p0 + i];
      i := i + 1;
    }
  }

  /** A Go slice's length is an `int`. */
  method Decode(b: Blob, start: nat) returns (r: Decoded<Value>)
    requires |b| < TWO_63
    ensures r == Dec(b, start)
    decreases |b| - start, 0
  {
    var p := start;
    if p >= |b| {
      return Fail(Truncated);
    }
    var major, ai := b[p] / 32, b[p] % 32;
    p := p + 1;
    var arg := ai;
    if 24 <= ai <= 27 {
      var w := Width(ai);
      if p + w > |b| {
        return Fail(TruncatedArg);
      }
      arg := ReadArgument(b, p, w);
      p := p + w;
    } else if ai > 27 {
      return Fail(BadInfo(ai));
    }
    assert ReadHead(b, start) == GoodHead(major, arg, p);
    if major == 0 {
      return Done(UInt(arg), p);
    } else if major == 1 {
      return Done(Negative(NegativeOf(arg)), p);
    } else if major == 2 || major == 3 {
      StringPanicsExactlyWhen(b, p, arg, if major == 2 then TruncatedBytes else TruncatedText);
      var end := Int64(p + Int64(arg));
      if end > |b| {
        return Fail(if major == 2 then TruncatedBytes else TruncatedText);
      }
      if end < p {
        return Fail(Panic);
      }
      var s := b[p..end];
      return Done(if major == 2 then Bytes(s) else Text(s), end);
    } else if major == 4 {
      r := DecodeItems(b, p, arg);
    } else if major == 5 {
      r := DecodeMap(b, p, arg);
    } else if major == 7 {
      return Done(if arg == 20 then Bool(false) else if arg == 21 then Bool(true) else Nil, p);
    } else {
      return Fail(Unsupported(major));
    }
  }

  lemma ItemsStep(b: Blob, p: nat, n: nat, done: seq<Value>)
    requires 0 < n && p <= |b|
    ensures match Dec(b, p)
      case Fail(e) => After(done, DecItems(b, p, n)) == Fail(e)
      case Done(v, q) => After(done, DecItems(b, p, n)) == After(done + [v], DecItems(b, q, n - 1))
  {
    var r := Dec(b, p);
    if r.Done? {
      AfterStep(done, r.value, DecItems(b, r.next, n - 1));
    }
  }

  method DecodeItems(b: Blob, start: nat, arg: nat) returns (r: Decoded<Value>)
    requires start <= |b| < TWO_63 && arg < TWO_64
    ensures r == DecBody(b, start, 4, arg)
    decreases |b| - start, 1
  {
    var out: seq<Value> := [];
    ghost var all := DecItems(b, start, arg);
    var p := start;
    AfterNothing(all);
    var i := 0;
    while i < arg
      invariant 0 <= i <= arg && start <= p <= |b|
      invariant all == After(out, DecItems(b, p, arg - i))
    {
      ItemsStep(b, p, arg - i, out);
      var item := Decode(b, p);
      if item.Fail? {
        return Fail(item.err);
      }
      out := out + [item.value];
      p := item.next;
      i := i + 1;
    }
    assert out + [] == out;
    return Done(Array(out), p);
  }

  method DecodeBinding(b: Blob, p: nat) returns (r: Decoded<Binding>)
    requires |b| < TWO_63
    ensures r == DecBinding(b, p)
    decreases |b| - p, 1
  {
    var key := Decode(b, p);
    if key.Fail? {
      return Fail(key.err);
    }
    var val := Decode(b, key.next);
    if val.Fail? {
      return Fail(val.err);
    }
    return Done((key.value, val.value), val.next);
  }

  lemma BindingsStep(b: Blob, p: nat, n: nat, done: seq<Binding>)
    requires 0 < n && p <= |b|
    ensures match DecBinding(b, p)
      case Fail(e) => After(done, DecBindings(b, p, n)) == Fail(e)
      case Done(kv, q) => After(done, DecBindings(b, p, n)) == After(done + [kv], DecBindings(b, q, n - 1))
  {
    var r := DecBinding(b, p);
    if r.Done? {
      AfterStep(done, r.value, DecBindings(b, r.next, n - 1));
    }
  }

  lemma AfterStep<T>(done: seq<T>, x: T, r: Decoded<seq<T>>)
    ensures r.Done? ==> After(done, Done([x] + r.value, r.next)) == After(done + [x], r)
  {
    if r.Done? {
      assert done + ([x] + r.value) == done + [x] + r.value;
    }
  }

  method Store(m: map<Blob, Value>, kv: Binding) returns (out: map<Blob, Value>)
    ensures out == Put(m, kv)
  {
    out := m;
    match kv.0 {
      case Text(s) => out := out[s := kv.1];
      case Bytes(h) => out := out[Hex(h) := kv.1];
      case _ =>
    }
  }

  lemma MapOfAppend(kvs: seq<Binding>, kv: Binding)
    ensures MapOf(kvs + [kv]) == Put(MapOf(kvs), kv)
  {
    assert (kvs + [kv])[..|kvs|] == kvs;
  }

  method DecodeMap(b: Blob, start: nat, arg: nat) returns (r: Decoded<Value>)
    requires start <= |b| < TWO_63 && arg < TWO_64
    ensures r == DecBody(b, start, 5, arg)
    decreases |b| - start, 2
  {
    var out: map<Blob, Value> := map[];
    ghost var kvs: seq<Binding> := [];
    ghost var all := DecBindings(b, start, arg);
    var p := start;
    AfterNothing(all);
    var i := 0;
    while i < arg
      invariant 0 <= i <= arg && start <= p <= |b|
      invariant out == MapOf(kvs)
      invariant all == After(kvs, DecBindings(b, p, arg - i))
    {
      BindingsStep(b, p, arg - i, kvs);
      var kv := DecodeBinding(b, p);
      if kv.Fail? {
        return Fail(kv.err);
      }
      MapOfAppend(kvs, kv.value);
      out := Store(out, kv.value);
      kvs := kvs + [kv.value];
      p := kv.next;
      i := i + 1;
    }
    assert kvs + [] == kvs;
    return Done(Map(out), p);
  }

  // ---------- locality ----------

  /** The `n` bytes of `b` from `p` on occur in `b'` from `p'` on. */
  predicate Window(b: Blob, p: nat, b': Blob, p': nat, n: nat)
  {
    && p + n <= |b| && p' + n <= |b'|
    && (n == 0 || (b[p + n - 1] == b'[p' + n - 1] && Window(b, p, b', p', n - 1)))
  }

  lemma {:induction false} WindowAt(b: Blob, p: nat, b': Blob, p': nat, n: nat, j: nat)
    requires Window(b, p, b', p', n) && j < n
    ensures b[p + j] == b'[p' + j]
  {
    if j < n - 1 {
      WindowAt(b, p, b', p', n - 1, j);
    }
  }

  lemma {:induction false} SubWindow(b: Blob, p: nat, b': Blob, p': nat, n: nat, i: nat, k: nat)
    requires Window(b, p, b', p', n) && i + k <= n
    ensures Window(b, p + i, b', p' + i, k)
  {
    if k > 0 {
      WindowAt(b, p, b', p', n, i + k - 1);
      SubWindow(b, p, b', p', n, i, k - 1);
    }
  }

  lemma WindowSlice(b: Blob, p: nat, b': Blob, p': nat, n: nat)
    requires Window(b, p, b', p', n)
    ensures b'[p'..p' + n] == b[p..p + n]
  {
    var s, t := b'[p'..p' + n], b[p..p + n];
    forall j | 0 <= j < n ensures s[j] == t[j] {
      WindowAt(b, p, b', p', n, j);
    }
  }

  lemma {:induction false} SliceWindow(b: Blob, p: nat, b': Blob, p': nat, n: nat)
    requires p + n <= |b| && p' + n <= |b'| && b'[p'..p' + n] == b[p..p + n]
    ensures Window(b, p, b', p', n)
  {
    if n > 0 {
      var s, t := b'[p'..p' + n], b[p..p + n];
      assert s[n - 1] == b'[p' + n - 1] && t[n - 1] == b[p + n - 1];
      assert s[..n - 1] == b'[p'..p' + (n - 1)] && t[..n - 1] == b[p..p + (n - 1)];
      SliceWindow(b, p, b', p', n - 1);
    }
  }

  /** A decoded item is a function of the bytes it consumed: any other buffer that holds the same
      bytes, at any place, decodes to the same value and the same length. */
  lemma {:induction false} DecLocal(b: Blob, p: nat, b': Blob, p': nat)
    requires Dec(b, p).Done?
    requires Window(b, p, b', p', Dec(b, p).next - p)
    ensures Dec(b', p') == Done(Dec(b, p).value, p' + (Dec(b, p).next - p))
    decreases |b| - p, 0, 0
  {
    var h := ReadHead(b, p);
    var n := Dec(b, p).next - p;
    var k := h.next - p;
    SubWindow(b, p, b', p', n, 0, k);
    WindowSlice(b, p, b', p', k);
    ReadHeadLocal(b, p, b', p');
    SubWindow(b, p, b', p', n, k, n - k);
    DecBodyLocal(b, h.next, h.major, h.arg, b', p' + k);
  }

  lemma {:induction false} DecBodyLocal(b: Blob, q: nat, major: nat, arg: nat, b': Blob, q': nat)
    requires q <= |b| && arg < TWO_64
    requires DecBody(b, q, major, arg).Done?
    requires Window(b, q, b', q', DecBody(b, q, major, arg).next - q)
    ensures DecBody(b', q', major, arg)
         == Done(DecBody(b, q, major, arg).value, q' + (DecBody(b, q, major, arg).next - q))
    decreases |b| - q, 3
  {
    if major == 2 || major == 3 {
      WindowSlice(b, q, b', q', arg);
    } else if major == 4 {
      DecItemsLocal(b, q, arg, b', q');
    } else if major == 5 {
      DecBindingsLocal(b, q, arg, b', q');
    }
  }

  lemma ItemsUnfold(b: Blob, p: nat, n: nat, v: Value, q: nat, vs: seq<Value>, q': nat)
    requires 0 < n && p <= |b| && q <= |b|
    requires Dec(b, p) == Done(v, q) && DecItems(b, q, n - 1) == Done(vs, q')
    ensures DecItems(b, p, n) == Done([v] + vs, q')
  {}

  lemma BindingUnfold(b: Blob, p: nat, k: Value, q: nat, v: Value, q': nat)
    requires Dec(b, p) == Done(k, q) && Dec(b, q) == Done(v, q')
    ensures DecBinding(b, p) == Done((k, v), q')
  {}

  lemma BindingsUnfold(b: Blob, p: nat, n: nat, kv: Binding, q: nat, kvs: seq<Binding>, q': nat)
    requires 0 < n && p <= |b| && q <= |b|
    requires DecBinding(b, p) == Done(kv, q) && DecBindings(b, q, n - 1) == Done(kvs, q')
    ensures DecBindings(b, p, n) == Done([kv] + kvs, q')
  {}

  lemma ItemsParts(b: Blob, p: nat, n: nat) returns (v: Value, q: nat, vs: seq<Value>, r: nat)
    requires 0 < n && p <= |b| && DecItems(b, p, n).Done?
    ensures Dec(b, p) == Done(v, q) && p < q <= r <= |b| && DecItems(b, q, n - 1) == Done(vs, r)
    ensures DecItems(b, p, n) == Done([v] + vs, r)
  {
    v, q := Dec(b, p).value, Dec(b, p).next;
    vs, r := DecItems(b, q, n - 1).value, DecItems(b, q, n - 1).next;
  }

  lemma BindingsParts(b: Blob, p: nat, n: nat) returns (kv: Binding, q: nat, kvs: seq<Binding>, r: nat)
    requires 0 < n && p <= |b| && DecBindings(b, p, n).Done?
    ensures DecBinding(b, p) == Done(kv, q) && p < q <= r <= |b| && DecBindings(b, q, n - 1) == Done(kvs, r)
    ensures DecBindings(b, p, n) == Done([kv] + kvs, r)
  {
    kv, q := DecBinding(b, p).value, DecBinding(b, p).next;
    kvs, r := DecBindings(b, q, n - 1).value, DecBindings(b, q, n - 1).next;
  }

  /** Locality of the item in front, with what remains of the window behind it. */
  lemma {:induction false} FirstLocal(b: Blob, p: nat, v: Value, q: nat, len: nat, rest: nat,
                                      b': Blob, p': nat, q': nat)
    requires Dec(b, p) == Done(v, q) && p < q
    requires len == (q - p) + rest && q' == p' + (q - p)
    requires Window(b, p, b', p', len)
    ensures Dec(b', p') == Done(v, q')
    ensures Window(b, q, b', q', rest)
    decreases |b| - p, 0, 1
  {
    var width := q - p;
    SubWindow(b, p, b', p', len, 0, width);
    SubWindow(b, p, b', p', len, width, rest);
    DecLocal(b, p, b', p');
  }

  lemma {:induction false} DecItemsLocal(b: Blob, p: nat, n: nat, b': Blob, p': nat)
    requires p <= |b| && DecItems(b, p, n).Done?
    requires Window(b, p, b', p', DecItems(b, p, n).next - p)
    ensures DecItems(b', p', n) == Done(DecItems(b, p, n).value, p' + (DecItems(b, p, n).next - p))
    decreases |b| - p, 1
  {
    if n > 0 {
      var v, q, vs, r := ItemsParts(b, p, n);
      var q', r' := p' + (q - p), p' + (r - p);
      FirstLocal(b, p, v, q, r - p, r - q, b', p', q');
      DecItemsLocal(b, q, n - 1, b', q');
      ItemsUnfold(b', p', n, v, q', vs, r');
    }
  }

  lemma BindingParts(b: Blob, p: nat) returns (k: Value, q: nat, v: Value, r: nat)
    requires DecBinding(b, p).Done?
    ensures Dec(b, p) == Done(k, q) && Dec(b, q) == Done(v, r) && p < q < r <= |b|
    ensures DecBinding(b, p) == Done((k, v), r)
  {
    k, q := Dec(b, p).value, Dec(b, p).next;
    v, r := Dec(b, q).value, Dec(b, q).next;
  }

  lemma {:induction false} DecBindingLocal(b: Blob, p: nat, kv: Binding, r: nat, len: nat, rest: nat,
                                           b': Blob, p': nat, r': nat)
    requires DecBinding(b, p) == Done(kv, r) && p < r
    requires len == (r - p) + rest && r' == p' + (r - p)
    requires Window(b, p, b', p', len)
    ensures DecBinding(b', p') == Done(kv, r')
    ensures Window(b, r, b', r', rest)
    decreases |b| - p, 1
  {
    var k, q, v, end := BindingParts(b, p);
    var q', mid := p' + (q - p), (r - q) + rest;
    FirstLocal(b, p, k, q, len, mid, b', p', q');
    FirstLocal(b, q, v, r, mid, rest, b', q', r');
    BindingUnfold(b', p', k, q', v, r');
  }

  lemma {:induction false} DecBindingsLocal(b: Blob, p: nat, n: nat, b': Blob, p': nat)
    requires p <= |b| && DecBindings(b, p, n).Done?
    requires Window(b, p, b', p', DecBindings(b, p, n).next - p)
    ensures DecBindings(b', p', n)
         == Done(DecBindings(b, p, n).value, p' + (DecBindings(b, p, n).next - p))
    decreases |b| - p, 2
  {
    if n > 0 {
      var kv, q, kvs, r := BindingsParts(b, p, n);
      var q', r' := p' + (q - p), p' + (r - p);
      DecBindingLocal(b, p, kv, q, r - p, r - q, b', p', q');
      DecBindingsLocal(b, q, n - 1, b', q');
      BindingsUnfold(b', p', n, kv, q', kvs, r');
    }
  }

  // ---------- complete items ----------

  /** `s` is the encoding of exactly one item. */
  predicate Complete(s: Blob)
  {
    Dec(s, 0).Done? && Dec(s, 0).next == |s|
  }

  function ValueOf(s: Blob): Value
    requires Complete(s)
  {
    Dec(s, 0).value
  }

  /** A complete item decodes to its value wherever it stands. */
  lemma DecInContext(pre: Blob, s: Blob, post: Blob)
    requires Complete(s)
    ensures Dec(pre + s + post, |pre|) == Done(ValueOf(s), |pre| + |s|)
  {
    var b := pre + s + post;
    assert b[|pre|..|pre| + |s|] == s == s[0..|s|];
    SliceWindow(s, 0, b, |pre|, |s|);
    DecLocal(s, 0, b, |pre|);
  }

  /** A complete item standing in a buffer at `p`. */
  lemma DecAt(b: Blob, p: nat, s: Blob)
    requires Complete(s) && p + |s| <= |b| && b[p..p + |s|] == s
    ensures Dec(b, p) == Done(ValueOf(s), p + |s|)
  {
    var q := p + |s|;
    DecInContext(b[..p], s, b[q..]);
    Bytes.ThreeParts(b, p, q);
  }

  /** The span a successful decode consumed, cut out, is complete and has the same value. */
  lemma SpanIsComplete(b: Blob, p: nat)
    requires Dec(b, p).Done?
    ensures var s := b[p..Dec(b, p).next]; Complete(s) && ValueOf(s) == Dec(b, p).value
  {
    var s := b[p..Dec(b, p).next];
    assert s[0..|s|] == s;
    SliceWindow(b, p, s, 0, |s|);
    DecLocal(b, p, s, 0);
  }

  /** No complete item is a proper prefix of another. */
  lemma PrefixFree(s: Blob, t: Blob)
    requires Complete(s) && Complete(t) && s <= t
    ensures s == t
  {
    DecInContext([], s, t[|s|..]);
    assert [] + s + t[|s|..] == t;
  }

  /** Two splits of one buffer into a complete item and a rest are the same split. */
  lemma SplitUnique(s: Blob, u: Blob, t: Blob, w: Blob)
    requires Complete(s) && Complete(t) && s + u == t + w
    ensures s == t && u == w
  {
    var b := s + u;
    assert s == b[..|s|] && t == b[..|t|];
    if |s| <= |t| {
      assert s == t[..|s|];
      PrefixFree(s, t);
    } else {
      assert t == s[..|t|];
      PrefixFree(t, s);
    }
    assert u == b[|s|..] && w == b[|t|..];
  }
}
