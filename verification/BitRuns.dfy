/** Whole runs of the bit writer and the bit reader. */
module BitRuns {
  import opened BitStrings
  import opened Results
  import opened Golomb
  import opened BitReader
  import opened BitWriter

  // ----- whole runs of the reader

  /** The unsigned fields of the given widths that a bit string starts with, if it is long enough. */
  function Fields(b: Bits, widths: seq<nat>): (r: seq<nat>)
    requires Sum(widths) <= |b|
    ensures |r| == |widths|
    decreases |widths|
  {
    if widths == [] then []
    else
      SumOfSplit(widths, |widths| - 1);
      var last := |widths| - 1;
      Fields(b, widths[..last]) + [FromBits(b[Sum(widths[..last])..Sum(widths)])]
  }

  function Sum(widths: seq<nat>): nat {
    if widths == [] then 0 else Sum(widths[..|widths| - 1]) + widths[|widths| - 1]
  }

  lemma {:induction false} SumOfSplit(widths: seq<nat>, k: nat)
    requires k <= |widths|
    ensures Sum(widths[..k]) <= Sum(widths)
    decreases |widths|
  {
    if k < |widths| {
      SumOfSplit(widths[..|widths| - 1], k);
      assert widths[..|widths| - 1][..k] == widths[..k];
    } else {
      assert widths[..k] == widths;
    }
  }

  /** A step of a run: a read of some bits, or a refill of the register. */
  datatype Op = Read(width: nat) | Reload

  datatype Outcome = Got(value: nat) | Reloaded(status: Status)

  /** Bits asked for by the operations. */
  function Asked(ops: seq<Op>): nat {
    if ops == [] then 0
    else Asked(ops[..|ops| - 1]) + (match ops[|ops| - 1] case Read(w) => w case Reload => 0)
  }

  /** Bits asked for since the last refill. */
  function SinceReload(ops: seq<Op>): nat {
    if ops == [] then 0
    else match ops[|ops| - 1]
      case Read(w) => SinceReload(ops[..|ops| - 1]) + w
      case Reload => 0
  }

  /** The rule of the reader: at most 57 bits between two refills. */
  predicate Scheduled(ops: seq<Op>) {
    forall i :: 0 <= i < |ops| && ops[i].Read? ==> ops[i].width >= 1 && SinceReload(ops[..i + 1]) <= MAX_READ
  }

  /** What operation i must see: the buffer's bits at its position; at a refill, how far the run got. */
  predicate Right(b: Bits, ops: seq<Op>, i: nat, o: Outcome)
    requires i < |ops|
  {
    match ops[i]
    case Read(w) =>
      && o.Got?
      && (Asked(ops[..i]) + w <= |b| ==> o.value == FromBits(b[Asked(ops[..i])..Asked(ops[..i]) + w]))
    case Reload =>
      && o.Reloaded?
      && (o.status == Overflow <==> Asked(ops[..i]) > |b|)
      && (o.status == AllReadIn <==> Asked(ops[..i]) == |b|)
  }

  /** The decoder after operations that asked for c bits, s of them since the last refill. */
  ghost predicate At(dec: BitDecoder, b: Bits, c: nat, s: nat)
    reads dec
  {
    && dec.Valid() && (dec.Over() <==> c > |b|)
    && (!dec.Over() ==> dec.Rest() == b[c..] && (|dec.Loaded()| + s >= MAX_READ || dec.Loaded() == dec.Rest()))
  }

  /** One read within the schedule. */
  method ReadStep(dec: BitDecoder, w: nat, ghost b: Bits, ghost c: nat, ghost s: nat) returns (value: nat)
    requires At(dec, b, c, s) && 1 <= w && s + w <= MAX_READ
    modifies dec`consumed
    ensures At(dec, b, c + w, s + w)
    ensures c + w <= |b| ==> value == FromBits(b[c..c + w])
  {
    hide FromBits, BitDecoder.Valid, BitDecoder.Loaded, BitDecoder.Rest;
    if !dec.Over() {
      dec.LoadedIsPrefix();
    }
    value := dec.ReadBits(w);
    if !dec.Over() {
      dec.LoadedIsPrefix();
      SliceOfRest(b, c, w);
    }
  }

  /** Any run of reads and refills that keeps the schedule sees exactly the buffer's bits in order,
      and every refill reports an overflow exactly when the run has passed the end. */
  method ReadRun(buffer: Bits, ops: seq<Op>) returns (out: seq<Outcome>)
    requires |buffer| % 8 == 0 && Scheduled(ops)
    ensures |out| == |ops| && forall i :: 0 <= i < |ops| ==> Right(buffer, ops, i, out[i])
  {
    hide FromBits, BitDecoder.Valid, BitDecoder.Ready, BitDecoder.Rest, BitDecoder.Loaded, BitDecoder.Over, At, Asked,
      SinceReload;
    var dec := new BitDecoder(buffer);
    AtStart(dec, buffer);
    out := [];
    var i := 0;
    assert ops[..0] == [];
    AskedNothing();
    while i < |ops|
      invariant i <= |ops| && |out| == i && At(dec, buffer, Asked(ops[..i]), SinceReload(ops[..i]))
      invariant forall k :: 0 <= k < i ==> Right(buffer, ops, k, out[k])
    {
      ghost var c, s := Asked(ops[..i]), SinceReload(ops[..i]);
      AskedNext(ops, i);
      match ops[i] {
        case Read(w) =>
          var value := ReadStep(dec, w, buffer, c, s);
          out := out + [Got(value)];
        case Reload =>
          var status := ReloadStep(dec, buffer, c, s);
          out := out + [Reloaded(status)];
      }
      i := i + 1;
    }
  }

  method ReloadStep(dec: BitDecoder, ghost b: Bits, ghost c: nat, ghost s: nat) returns (status: Status)
    requires At(dec, b, c, s)
    modifies dec`container, dec`consumed, dec`cursor
    ensures At(dec, b, c, 0)
    ensures (status == Overflow <==> c > |b|) && (status == AllReadIn <==> c == |b|)
  {
    hide BitDecoder.Valid, BitDecoder.Loaded, BitDecoder.Rest, BitDecoder.Over;
    status := dec.Refill();
  }

  lemma AtStart(dec: BitDecoder, b: Bits)
    requires dec.Valid() && !dec.Over() && dec.Ready() && dec.Rest() == b
    ensures At(dec, b, 0, 0)
  {
    assert b[0..] == b;
  }

  lemma AskedNothing()
    ensures Asked([]) == 0 && SinceReload([]) == 0
  {
  }

  lemma AskedNext(ops: seq<Op>, i: nat)
    requires i < |ops|
    ensures Asked(ops[..i + 1]) == Asked(ops[..i]) + (match ops[i] case Read(w) => w case Reload => 0)
    ensures SinceReload(ops[..i + 1]) == match ops[i] case Read(w) => SinceReload(ops[..i]) + w case Reload => 0
  {
    assert ops[..i + 1][..i] == ops[..i];
  }

  // ----- whole runs of the writer

  /** The strings of n-bit fields one after the other. */
  function FieldBits(values: seq<nat>, widths: seq<nat>): (b: Bits)
    requires |values| == |widths|
    ensures |b| == Sum(widths)
    decreases |widths|
  {
    if widths == [] then []
    else
      var last := |widths| - 1;
      FieldBits(values[..last], widths[..last]) + ToBits(values[last], widths[last])
  }

  lemma FieldBitsNext(values: seq<nat>, widths: seq<nat>, i: nat)
    requires |values| == |widths| && i < |widths|
    ensures FieldBits(values[..i + 1], widths[..i + 1])
            == FieldBits(values[..i], widths[..i]) + ToBits(values[i], widths[i])
  {
    hide ToBits;
    var v, w := values[..i + 1], widths[..i + 1];
    assert v[..i] == values[..i] && w[..i] == widths[..i];
  }

  /** Any run of puts, each at the end of the previous one, leaves the concatenation of the fields in
      the buffer and changes nothing else; it fails exactly when they do not all fit. */
  method PutFields(values: seq<nat>, widths: seq<nat>, start: nat, mem: array<bool>, maxStreamLen: nat)
    returns (r: Result<nat>)
    requires |values| == |widths| && forall i :: 0 <= i < |widths| ==> 1 <= widths[i] <= 32
    requires maxStreamLen % 32 == 0 && start <= maxStreamLen <= mem.Length
    modifies mem
    ensures Put(false, old(mem[..]), mem[..], start, FieldBits(values, widths), maxStreamLen, r)
  {
    hide Put, ToBits, FieldBits;
    ghost var before := mem[..];
    r := Ok(start);
    NothingPut(before, start, maxStreamLen);
    var i := 0;
    while i < |widths|
      invariant i <= |widths| && r.Ok?
      invariant Put(false, before, mem[..], start, FieldBits(values[..i], widths[..i]), maxStreamLen, r)
    {
      ghost var between := mem[..];
      ghost var done, next := FieldBits(values[..i], widths[..i]), ToBits(values[i], widths[i]);
      PutLength(before, between, start, done, maxStreamLen, r);
      r := PutNBits32(values[i], widths[i], r.value, mem, maxStreamLen);
      PutThenPut(false, before, between, mem[..], start, done, next, maxStreamLen, r);
      FieldBitsNext(values, widths, i);
      i := i + 1;
      if r.Err? {
        StillFails(before, mem[..], start, values, widths, i, maxStreamLen, r);
        return;
      }
    }
    assert values[..i] == values && widths[..i] == widths;
  }

  lemma NothingPut(a: Bits, start: nat, limit: nat)
    requires start <= limit <= |a|
    ensures Put(false, a, a, start, FieldBits([], []), limit, Ok(start))
  {
    assert a == a[..start] + [] + a[start..];
  }

  lemma PutLength(a: Bits, b: Bits, start: nat, x: Bits, limit: nat, r: Result<nat>)
    requires Put(false, a, b, start, x, limit, r) && r.Ok?
    ensures r == Ok(start + |x|)
  {
  }

  lemma StillFails(a: Bits, b: Bits, start: nat, values: seq<nat>, widths: seq<nat>, i: nat, limit: nat, r: Result<nat>)
    requires |values| == |widths| && i <= |widths|
    requires Put(false, a, b, start, FieldBits(values[..i], widths[..i]), limit, r) && r.Err?
    ensures Put(false, a, b, start, FieldBits(values, widths), limit, r)
  {
    hide FieldBits;
    SumOfSplit(widths, i);
  }

  // ----- both together

  /** The reader returns the fields the writer put, whatever follows them. */
  lemma {:induction false} FieldsReadBack(values: seq<nat>, widths: seq<nat>, t: Bits)
    requires |values| == |widths| && forall i :: 0 <= i < |widths| ==> values[i] < Pow2(widths[i])
    ensures Fields(FieldBits(values, widths) + t, widths) == values
    decreases |widths|
  {
    hide ToBits, FromBits, Pow2;
    if widths != [] {
      var last := |widths| - 1;
      var head, b := FieldBits(values[..last], widths[..last]), ToBits(values[last], widths[last]);
      FieldsReadBack(values[..last], widths[..last], b + t);
      assert head + b + t == head + (b + t);
      FromToBits(values[last], widths[last]);
      assert (head + b + t)[Sum(widths[..last])..Sum(widths)] == b;
      assert values == values[..last] + [values[last]];
    }
  }
}
