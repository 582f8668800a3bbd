/** The framed download over the serial port: four bytes of total size, the payload, and a 16-bit
    sum. One receiver runs in the FIFO interrupt, the other polls. */
module Download {
  import opened Common

  const U32: int := 0x1_0000_0000
  const U16: int := 0x1_0000

  // ---------- frames ----------

  /** A byte moved up n places. */
  function Place(b: Byte, n: nat): nat {
    if n == 0 then b else if n == 1 then b * 0x100 else if n == 2 then b * 0x1_0000 else b * 0x100_0000
  }

  /** The size, its lowest byte first. */
  function Declared(frame: seq<Byte>): (n: nat)
    requires |frame| >= 4
    ensures n == frame[0] as int + frame[1] as int * 0x100 + frame[2] as int * 0x1_0000 + frame[3] as int * 0x100_0000
  {
    Place(frame[0], 0) + Place(frame[1], 1) + Place(frame[2], 2) + Place(frame[3], 3)
  }

  function Sum(s: seq<Byte>): nat {
    if s == [] then 0 else Sum(s[..|s| - 1]) + s[|s| - 1]
  }

  lemma {:induction false} SumAdds(a: seq<Byte>, b: seq<Byte>)
    ensures Sum(a + b) == Sum(a) + Sum(b)
    ensures |b| == 1 ==> Sum(b) == b[0]
  {
    if b == [] {
      assert a + b == a;
    } else {
      assert (a + b)[..|a + b| - 1] == a + b[..|b| - 1];
      SumAdds(a, b[..|b| - 1]);
      assert |b| == 1 ==> b[..0] == [];
    }
  }

  /** A frame as long as it declares; both receivers need at least five bytes. */
  predicate IsFrame(frame: seq<Byte>) {
    |frame| >= 5 && Declared(frame) == |frame|
  }

  function PayloadEnd(frame: seq<Byte>): (e: nat)
    requires |frame| >= 5
    ensures 4 <= e <= |frame|
  {
    if |frame| >= 6 then |frame| - 2 else 4
  }

  /** The verdict a frame deserves: its last two bytes are the sum of its payload. */
  predicate Good(frame: seq<Byte>): (good: bool)
    requires |frame| >= 5
    ensures |frame| >= 6 ==>
              (good <==> Sum(frame[4..|frame| - 2]) % 0x1_0000
                         == frame[|frame| - 2] as int + frame[|frame| - 1] as int * 0x100)
  {
    Sum(frame[4..PayloadEnd(frame)]) % U16 == Place(frame[|frame| - 2], 0) + Place(frame[|frame| - 1], 1)
  }

  function Low(n: nat): Byte { n % 256 }

  /** The frame for a payload, as the sending side builds it. */
  function Build(payload: seq<Byte>): seq<Byte> {
    var n, sum := |payload| + 6, Sum(payload) % U16;
    [Low(n), Low(n / 0x100), Low(n / 0x1_0000), Low(n / 0x100_0000)] + payload + [Low(sum), Low(sum / 0x100)]
  }

  // ---------- the interrupt receiver ----------

  datatype Rx = Rx(point: nat, filesize: nat, checksum: nat, dncs: nat, isdone: bool)

  /** The counters as they are reset before a download; `isdone` is the negation of rx_isdone. */
  const RESET := Rx(0, 0, 0, 0, false)

  function Wrap32(x: int): (r: nat)
    ensures r < U32 && (0 <= x < U32 ==> r == x)
  {
    x % U32
  }

  function Wrap16(x: int): (r: nat)
    ensures r < U16 && (0 <= x < U16 ==> r == x)
  {
    x % U16
  }

  function Sub32(a: int, b: int): nat {
    Wrap32(a - b)
  }

  /** One byte taken from the FIFO. The or-ed bytes fall into bits that are still zero, so the
      bitwise or is a sum; bits beyond the sixteen of dncs are cut off. */
  function Receive(r: Rx, b: Byte): Rx {
    var point := Wrap32(r.point + 1);
    if point < 5 then
      r.(point := point, filesize := if point == 0 then r.filesize else Wrap32(r.filesize + Place(b, point - 1)))
    else if point > Sub32(r.filesize, 2) then
      var place := Sub32(1, Sub32(r.filesize, point));
      r.(point := point,
         dncs := if place < 2 then Wrap16(r.dncs + Place(b, place)) else r.dncs,
         isdone := r.isdone || point == r.filesize)
    else
      r.(point := point, checksum := Wrap32(r.checksum + b))
  }

  function Feed(r: Rx, bytes: seq<Byte>): Rx {
    if bytes == [] then r else Receive(Feed(r, bytes[..|bytes| - 1]), bytes[|bytes| - 1])
  }

  predicate Accepts(r: Rx) {
    r.dncs == r.checksum % U16
  }

  /** The size read from the first bytes. */
  function SizeSoFar(frame: seq<Byte>, k: nat): (n: nat)
    requires |frame| >= 4
    ensures n < U32
  {
    (if k > 0 then Place(frame[0], 0) else 0) + (if k > 1 then Place(frame[1], 1) else 0) +
    (if k > 2 then Place(frame[2], 2) else 0) + (if k > 3 then Place(frame[3], 3) else 0)
  }

  function SumSoFar(frame: seq<Byte>, k: nat): nat
    requires |frame| >= 5 && k <= |frame|
  {
    var e := PayloadEnd(frame);
    Sum(frame[4..if k < 4 then 4 else if k < e then k else e])
  }

  /** The sum received; a five-byte frame has its first byte inside the size. */
  function TailSoFar(frame: seq<Byte>, k: nat): nat
    requires |frame| >= 5 && k <= |frame|
  {
    var n := |frame|;
    (if n >= 6 && k >= n - 1 then Place(frame[n - 2], 0) else 0) + (if k == n then Place(frame[n - 1], 1) else 0)
  }

  /** The counters after the first k bytes of a frame. */
  function Expected(frame: seq<Byte>, k: nat): Rx
    requires IsFrame(frame) && k <= |frame|
  {
    Rx(k, SizeSoFar(frame, k), Wrap32(SumSoFar(frame, k)), TailSoFar(frame, k), k == |frame|)
  }

  lemma {:induction false} SumNext(frame: seq<Byte>, k: nat)
    requires |frame| >= 5 && 0 < k <= |frame|
    ensures SumSoFar(frame, k) == SumSoFar(frame, k - 1) + if 4 < k <= PayloadEnd(frame) then frame[k - 1] else 0
  {
    if 4 < k <= PayloadEnd(frame) {
      assert frame[4..k][..k - 5] == frame[4..k - 1];
    }
  }

  lemma WrapSum(x: nat, b: nat)
    ensures Wrap32(Wrap32(x) + b) == Wrap32(x + b)
  {
  }

  lemma {:induction false} HeaderStep(frame: seq<Byte>, k: nat)
    requires IsFrame(frame) && 0 < k <= 4
    ensures Receive(Expected(frame, k - 1), frame[k - 1]) == Expected(frame, k)
  {
    SumNext(frame, k);
  }

  lemma {:induction false} BodyStep(frame: seq<Byte>, k: nat)
    requires IsFrame(frame) && 4 < k <= PayloadEnd(frame)
    ensures Receive(Expected(frame, k - 1), frame[k - 1]) == Expected(frame, k)
  {
    SumNext(frame, k);
    WrapSum(SumSoFar(frame, k - 1), frame[k - 1]);
    assert SizeSoFar(frame, k - 1) == |frame|;
  }

  lemma {:induction false} TailStep(frame: seq<Byte>, k: nat)
    requires IsFrame(frame) && 4 < k && PayloadEnd(frame) < k <= |frame|
    ensures Receive(Expected(frame, k - 1), frame[k - 1]) == Expected(frame, k)
  {
    SumNext(frame, k);
    assert SizeSoFar(frame, k - 1) == |frame|;
  }

  lemma {:induction false} FeedExpected(frame: seq<Byte>, k: nat)
    requires IsFrame(frame) && k <= |frame|
    ensures Feed(RESET, frame[..k]) == Expected(frame, k)
  {
    if k > 0 {
      assert frame[..k][..k - 1] == frame[..k - 1];
      FeedExpected(frame, k - 1);
      if k <= 4 {
        HeaderStep(frame, k);
      } else if k <= PayloadEnd(frame) {
        BodyStep(frame, k);
      } else {
        TailStep(frame, k);
      }
    }
  }

  lemma SumMod(x: nat)
    ensures Wrap32(x) % U16 == x % U16
  {
    assert x == x / U32 * U32 + x % U32;
    assert U32 == 0x1_0000 * U16;
  }

  /** For every frame the interrupt receiver ends exactly with the last byte ... */
  lemma {:induction false} DoneWithLastByte(frame: seq<Byte>, k: nat)
    requires IsFrame(frame) && k <= |frame|
    ensures Feed(RESET, frame[..k]).isdone <==> k == |frame|
  {
    FeedExpected(frame, k);
  }

  /** ... and then accepts exactly the good frames. */
  lemma {:induction false} InterruptVerdict(frame: seq<Byte>)
    requires IsFrame(frame)
    ensures Accepts(Feed(RESET, frame)) <==> Good(frame)
  {
    hide Feed, SumSoFar, Sum;
    var n := |frame|;
    FeedExpected(frame, n);
    assert frame[..n] == frame;
    SumMod(SumSoFar(frame, n));
    SumWhole(frame);
  }

  lemma SumWhole(frame: seq<Byte>)
    requires IsFrame(frame)
    ensures SumSoFar(frame, |frame|) == Sum(frame[4..PayloadEnd(frame)])
  {
  }

  // ---------- declared sizes below five ----------

  lemma {:induction false} HeaderFeed(bytes: seq<Byte>, k: nat)
    requires |bytes| >= 4 && k <= 4
    ensures var r := Feed(RESET, bytes[..k]);
            r.point == k && r.filesize == SizeSoFar(bytes, k) && !r.isdone
  {
    if k > 0 {
      assert bytes[..k][..k - 1] == bytes[..k - 1];
      HeaderFeed(bytes, k - 1);
    }
  }

  /** A declared size of at most four is never reached: the receiver waits for ever. */
  lemma {:induction false} NeverDone(bytes: seq<Byte>, k: nat)
    requires 4 <= |bytes| < U32 && Declared(bytes) <= 4 && k <= |bytes|
    ensures var r := Feed(RESET, bytes[..k]);
            !r.isdone && r.point == k && (k >= 4 ==> r.filesize == Declared(bytes))
  {
    if k <= 4 {
      HeaderFeed(bytes, k);
    } else {
      assert bytes[..k][..k - 1] == bytes[..k - 1];
      NeverDone(bytes, k - 1);
    }
  }

  // ---------- interrupts ----------

  function Joined(batches: seq<seq<Byte>>): seq<Byte> {
    if batches == [] then [] else Joined(batches[..|batches| - 1]) + batches[|batches| - 1]
  }

  /** The interrupt receiver's counters. */
  class Receiver {
    var rxPoint: nat
    var rxFilesize: nat
    var rxChecksum: nat
    var rxDncs: nat
    var rxIsdone: bool
    ghost var received: seq<Byte>

    ghost function Abs(): Rx
      reads this
    {
      Rx(rxPoint, rxFilesize, rxChecksum, rxDncs, rxIsdone)
    }

    ghost predicate Valid()
      reads this
    {
      Abs() == Feed(RESET, received)
    }

    constructor ()
      ensures Valid() && received == []
    {
      rxPoint, rxFilesize, rxChecksum, rxDncs, rxIsdone := 0, 0, 0, 0, false;
      received := [];
    }

    method TakeByte(b: Byte)
      modifies this`rxPoint, this`rxFilesize, this`rxChecksum, this`rxDncs, this`rxIsdone
      ensures Abs() == Receive(old(Abs()), b)
    {
      rxPoint := Wrap32(rxPoint + 1);
      if rxPoint < 5 {
        if rxPoint != 0 {
          rxFilesize := Wrap32(rxFilesize + Place(b, rxPoint - 1));
        }
      } else if rxPoint > Sub32(rxFilesize, 2) {
        var place := Sub32(1, Sub32(rxFilesize, rxPoint));
        if place < 2 {
          rxDncs := Wrap16(rxDncs + Place(b, place));
        }
        if rxPoint == rxFilesize {
          rxIsdone := true;
        }
      } else {
        rxChecksum := Wrap32(rxChecksum + b);
      }
    }

    /** One interrupt: empties the FIFO. */
    method RxFifo(fifo: seq<Byte>)
      requires Valid()
      modifies this
      ensures Valid() && received == old(received) + fifo
    {
      var i := 0;
      while i < |fifo|
        invariant 0 <= i <= |fifo| && Valid() && received == old(received) + fifo[..i]
      {
        TakeByte(fifo[i]);
        ghost var before := received;
        received := before + [fifo[i]];
        assert received[..|received| - 1] == before;
        assert received == old(received) + fifo[..i + 1];
        i := i + 1;
      }
    }
  }

  /** A whole download by interrupts, however the bytes were batched. */
  method ReceiveByInterrupt(batches: seq<seq<Byte>>) returns (done: bool, ok: bool)
    ensures done == Feed(RESET, Joined(batches)).isdone
    ensures ok == Accepts(Feed(RESET, Joined(batches)))
    ensures IsFrame(Joined(batches)) ==> done && (ok <==> Good(Joined(batches)))
  {
    var rx := new Receiver();
    for i := 0 to |batches|
      invariant rx.Valid() && rx.received == Joined(batches[..i])
    {
      rx.RxFifo(batches[i]);
      assert batches[..i + 1][..i] == batches[..i];
    }
    assert batches[..|batches|] == batches;
    ghost var frame := Joined(batches);
    if IsFrame(frame) {
      InterruptVerdict(frame);
      DoneWithLastByte(frame, |frame|);
      assert frame[..|frame|] == frame;
    }
    done := rx.rxIsdone;
    ok := rx.rxDncs == rx.rxChecksum % U16;
  }

  // ---------- the polled receiver ----------

  lemma {:induction false} SumSnoc(line: seq<Byte>, i: nat)
    requires 4 <= i < |line|
    ensures Sum(line[4..i + 1]) == Sum(line[4..i]) + line[i]
  {
    assert line[4..i + 1][..i - 4] == line[4..i];
  }

  lemma AddMod(x: nat, b: nat)
    ensures (x % U16 + b) % U16 == (x + b) % U16
  {
  }

  /** Reads a frame byte by byte, then checks its sum. */
  method DownloadData(line: seq<Byte>) returns (ok: bool, programSize: int)
    requires IsFrame(line)
    ensures ok <==> Good(line)
    ensures programSize == Sub32(|line|, 6) && (|line| >= 6 ==> programSize == |line| - 6)
  {
    var fileSize := 10;
    var buffer: seq<Byte> := [];
    var i := 0;
    while i < fileSize
      invariant 0 <= i <= |line| && buffer == line[..i]
      invariant fileSize == if i <= 3 then 10 else |line|
      decreases |line| - i
    {
      buffer := buffer + [line[i]];
      if i == 3 {
        fileSize := Place(buffer[0], 0) + Place(buffer[1], 1) + Place(buffer[2], 2) + Place(buffer[3], 3);
      }
      i := i + 1;
    }
    assert buffer == line;
    programSize := Sub32(fileSize, 6);
    var checkSum := 0;
    i := 4;
    while i < fileSize - 2
      invariant 4 <= i <= PayloadEnd(line)
      invariant checkSum == Sum(line[4..i]) % U16
      decreases fileSize - i
    {
      SumSnoc(line, i);
      AddMod(Sum(line[4..i]), line[i]);
      checkSum := (checkSum + buffer[i]) % U16;
      i := i + 1;
    }
    var dnCS := Place(buffer[fileSize - 2], 0) + Place(buffer[fileSize - 1], 1);
    ok := checkSum == dnCS;
  }

  /** Every frame built by the sending side is accepted. */
  lemma BuiltFramesAreGood(payload: seq<Byte>)
    requires |payload| + 6 < U32
    ensures IsFrame(Build(payload)) && Good(Build(payload))
  {
    var frame, n := Build(payload), |payload| + 6;
    LowBytes(n);
    assert frame[4..|frame| - 2] == payload;
    TwoLowBytes(Sum(payload) % U16);
  }

  lemma LowBytes(n: nat)
    requires n < U32
    ensures n == Place(Low(n), 0) + Place(Low(n / 0x100), 1)
                 + Place(Low(n / 0x1_0000), 2) + Place(Low(n / 0x100_0000), 3)
  {
    var a, b, c := n / 0x100, n / 0x1_0000, n / 0x100_0000;
    assert a == b * 0x100 + a % 0x100;
    assert b == c * 0x100 + b % 0x100;
  }

  lemma TwoLowBytes(n: nat)
    requires n < U16
    ensures Place(Low(n), 0) + Place(Low(n / 0x100), 1) == n
  {
  }
}
