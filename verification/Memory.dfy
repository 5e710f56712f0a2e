/** Samples in memory. */
module Memory {
  // Memory is a string of bits in the byte order of the stream, which is the native one of the
  // big-endian flight processor; a packed structure is its fields in order.

  import opened BitStrings
  import opened Golomb
  import opened Spill
  import opened Values
  import opened Streams

  /** Size of one sample in bits. */
  function SampleBits(setups: seq<Setup>): nat {
    if setups == [] then 0 else setups[0].width + SampleBits(setups[1..])
  }

  function RecordOf(b: Bits, setups: seq<Setup>): (rec: Record)
    requires |b| == SampleBits(setups)
    ensures RecordFits(rec, setups)
  {
    if setups == [] then []
    else [FromBits(b[..setups[0].width])] + RecordOf(b[setups[0].width..], setups[1..])
  }

  function BitsOf(rec: Record, setups: seq<Setup>): (b: Bits)
    requires |rec| == |setups|
    ensures |b| == SampleBits(setups)
  {
    if setups == [] then [] else ToBits(rec[0], setups[0].width) + BitsOf(rec[1..], setups[1..])
  }

  lemma {:induction false} BitsOfRecordOf(b: Bits, setups: seq<Setup>)
    requires |b| == SampleBits(setups)
    ensures BitsOf(RecordOf(b, setups), setups) == b
  {
    if setups != [] {
      var w := setups[0].width;
      ToFromBits(b[..w]);
      BitsOfRecordOf(b[w..], setups[1..]);
      var rec := RecordOf(b, setups);
      assert rec[1..] == RecordOf(b[w..], setups[1..]);
      assert b == b[..w] + b[w..];
    }
  }

  lemma {:induction false} RecordOfBitsOf(rec: Record, setups: seq<Setup>)
    requires RecordFits(rec, setups)
    ensures RecordOf(BitsOf(rec, setups), setups) == rec
  {
    if setups != [] {
      var w := setups[0].width;
      var b := BitsOf(rec, setups);
      assert b[..w] == ToBits(rec[0], w) && b[w..] == BitsOf(rec[1..], setups[1..]);
      FromToBits(rec[0], w);
      RecordOfBitsOf(rec[1..], setups[1..]);
      assert rec == [rec[0]] + rec[1..];
    }
  }

  /** n samples stored one after the other. */
  function RecordsOf(b: Bits, n: nat, setups: seq<Setup>): (recs: seq<Record>)
    requires |b| == Times(n, SampleBits(setups))
    ensures |recs| == n && AllFit(recs, setups)
    decreases n
  {
    if n == 0 then []
    else
      var cut := Times(n - 1, SampleBits(setups));
      RecordsOf(b[..cut], n - 1, setups) + [RecordOf(b[cut..], setups)]
  }

  function BitsOfAll(recs: seq<Record>, setups: seq<Setup>): (b: Bits)
    requires forall i :: 0 <= i < |recs| ==> |recs[i]| == |setups|
    ensures |b| == Times(|recs|, SampleBits(setups))
  {
    if recs == [] then []
    else BitsOfAll(recs[..|recs| - 1], setups) + BitsOf(recs[|recs| - 1], setups)
  }

  lemma {:induction false} BitsOfAllRecordsOf(b: Bits, n: nat, setups: seq<Setup>)
    requires |b| == Times(n, SampleBits(setups))
    ensures BitsOfAll(RecordsOf(b, n, setups), setups) == b
    decreases n
  {
    hide RecordOf, BitsOf, BitsOfAll, SampleBits;
    if n == 0 {
      NoRecords(setups);
    } else {
      var cut := Times(n - 1, SampleBits(setups));
      BitsOfAllRecordsOf(b[..cut], n - 1, setups);
      BitsOfRecordOf(b[cut..], setups);
      var recs := RecordsOf(b, n, setups);
      BitsOfAllSnoc(recs, n - 1, setups);
      assert recs[..n] == recs && recs[..n - 1] == RecordsOf(b[..cut], n - 1, setups);
      assert b == b[..cut] + b[cut..];
    }
  }

  lemma NoRecords(setups: seq<Setup>)
    ensures BitsOfAll([], setups) == []
  {
  }

  lemma RecordsOfSnoc(a: Bits, b: Bits, n: nat, setups: seq<Setup>)
    requires |a| == Times(n, SampleBits(setups)) && |b| == SampleBits(setups)
    ensures RecordsOf(a + b, n + 1, setups) == RecordsOf(a, n, setups) + [RecordOf(b, setups)]
  {
    hide RecordOf;
    assert (a + b)[..|a|] == a && (a + b)[|a|..] == b;
  }

  lemma {:induction false} RecordsOfBitsOfAll(recs: seq<Record>, setups: seq<Setup>)
    requires AllFit(recs, setups)
    ensures RecordsOf(BitsOfAll(recs, setups), |recs|, setups) == recs
  {
    hide RecordOf, BitsOf, SampleBits, Times;
    if recs != [] {
      var init, last := recs[..|recs| - 1], recs[|recs| - 1];
      RecordsOfBitsOfAll(init, setups);
      RecordOfBitsOf(last, setups);
      RecordsOfSnoc(BitsOfAll(init, setups), BitsOf(last, setups), |init|, setups);
      assert recs == init + [last];
    }
  }

  /** Sample i of an array of samples. */
  lemma {:induction false} RecordAtOffset(b: Bits, n: nat, setups: seq<Setup>, i: nat)
    requires |b| == Times(n, SampleBits(setups)) && i < n
    ensures Times(i + 1, SampleBits(setups)) == Times(i, SampleBits(setups)) + SampleBits(setups) <= |b|
    ensures RecordsOf(b, n, setups)[i]
            == RecordOf(b[Times(i, SampleBits(setups))..Times(i + 1, SampleBits(setups))], setups)
    decreases n
  {
    hide RecordOf;
    var cut := Times(n - 1, SampleBits(setups));
    TimesMonotone(i + 1, n, SampleBits(setups));
    if i == n - 1 {
      assert b[cut..] == b[cut..Times(n, SampleBits(setups))];
    } else {
      RecordAtOffset(b[..cut], n - 1, setups, i);
      assert b[..cut][Times(i, SampleBits(setups))..Times(i + 1, SampleBits(setups))]
          == b[Times(i, SampleBits(setups))..Times(i + 1, SampleBits(setups))];
    }
  }

  lemma BitsOfAllSnoc(recs: seq<Record>, i: nat, setups: seq<Setup>)
    requires i < |recs| && forall j :: 0 <= j < |recs| ==> |recs[j]| == |setups|
    ensures BitsOfAll(recs[..i + 1], setups) == BitsOfAll(recs[..i], setups) + BitsOf(recs[i], setups)
  {
    assert recs[..i + 1][..i] == recs[..i];
  }
}
