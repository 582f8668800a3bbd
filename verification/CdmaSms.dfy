/** The marshalling of CDMA short messages to and from a parcel. A parcel is a sequence of 32-bit
    words here: a single byte takes a word of its own. */
module CdmaSms {
  import opened Common

  type Word = x: int | 0 <= x < 0x1_0000_0000
  type Int32 = x: int | -0x8000_0000 <= x < 0x8000_0000

  const ADDRESS_MAX := 36
  const SUBADDRESS_MAX := 36
  const BEARER_DATA_MAX := 255

  function ToWord(x: Int32): Word {
    if x < 0 then x + 0x1_0000_0000 else x
  }

  function FromWord(w: Word): Int32 {
    if w >= 0x8000_0000 then w - 0x1_0000_0000 else w
  }

  function Low(w: Word): Byte {
    w % 0x100
  }

  datatype Address = Address(digitMode: Int32, numberMode: Int32, numberType: Int32, numberPlan: Int32,
                             numberOfDigits: Byte, digits: seq<Byte>)
  datatype SubAddress = SubAddress(subaddressType: Int32, odd: Byte, numberOfDigits: Byte, digits: seq<Byte>)
  datatype Sms = Sms(teleserviceId: Int32, isServicePresent: Byte, serviceCategory: Int32,
                     address: Address, subAddress: SubAddress, bearerDataLen: Int32, bearerData: seq<Byte>)

  /** The arrays of the message have their fixed sizes. */
  predicate WellFormed(m: Sms) {
    && |m.address.digits| == ADDRESS_MAX && |m.subAddress.digits| == SUBADDRESS_MAX
    && |m.bearerData| == BEARER_DATA_MAX
  }

  /** The number of turns of a copying loop for this count. */
  function Limit(count: int, max: nat): (n: nat)
    ensures n <= max
  {
    if count <= 0 then 0 else if count < max then count else max
  }

  // ---------- what is written ----------

  function EncodeHead(m: Sms): seq<Word> {
    [ToWord(m.teleserviceId), m.isServicePresent, ToWord(m.serviceCategory),
     ToWord(m.address.digitMode), ToWord(m.address.numberMode), ToWord(m.address.numberType),
     ToWord(m.address.numberPlan), m.address.numberOfDigits]
  }

  function EncodeSub(s: SubAddress): seq<Word> {
    [ToWord(s.subaddressType), s.odd, s.numberOfDigits]
  }

  function Words(bytes: seq<Byte>): (r: seq<Word>) {
    seq(|bytes|, i requires 0 <= i < |bytes| => bytes[i])
  }

  function Encode(m: Sms): seq<Word>
    requires WellFormed(m)
  {
    EncodeHead(m) + Words(m.address.digits[..Limit(m.address.numberOfDigits, ADDRESS_MAX)])
    + EncodeSub(m.subAddress) + Words(m.subAddress.digits[..Limit(m.subAddress.numberOfDigits, SUBADDRESS_MAX)])
    + [ToWord(m.bearerDataLen)] + Words(m.bearerData[..Limit(m.bearerDataLen, BEARER_DATA_MAX)])
  }

  // ---------- what is read ----------

  /** The first n of max bytes; the rest stays zero. */
  function Digits(w: seq<Word>, n: nat, max: nat): (r: seq<Byte>)
    requires n <= max && n <= |w|
    ensures |r| == max
  {
    seq(max, i requires 0 <= i < max => if i < n then Low(w[i]) else 0)
  }

  /** The fields up to the address digits, and the words behind them. */
  function ReadAddress(w: seq<Word>): Option<(Sms, seq<Word>)> {
    if |w| < 8 then None
    else
      var n := Limit(Low(w[7]), ADDRESS_MAX);
      if |w| < 8 + n then None
      else
        var a := Address(FromWord(w[3]), FromWord(w[4]), FromWord(w[5]), FromWord(w[6]), Low(w[7]),
                         Digits(w[8..], n, ADDRESS_MAX));
        Some((EMPTY.(teleserviceId := FromWord(w[0]), isServicePresent := Low(w[1]),
                     serviceCategory := FromWord(w[2]), address := a), w[8 + n..]))
  }

  function ReadSubAddress(w: seq<Word>): Option<(SubAddress, seq<Word>)> {
    if |w| < 3 then None
    else
      var n := Limit(Low(w[2]), SUBADDRESS_MAX);
      if |w| < 3 + n then None
      else Some((SubAddress(FromWord(w[0]), Low(w[1]), Low(w[2]), Digits(w[3..], n, SUBADDRESS_MAX)), w[3 + n..]))
  }

  function ReadBearer(w: seq<Word>): Option<(Int32, seq<Byte>)> {
    if |w| < 1 then None
    else
      var n := Limit(FromWord(w[0]), BEARER_DATA_MAX);
      if |w| < 1 + n then None
      else Some((FromWord(w[0]), Digits(w[1..], n, BEARER_DATA_MAX)))
  }

  /** The message after memset. */
  const EMPTY: Sms := Sms(0, 0, 0, Address(0, 0, 0, 0, 0, Zeros(ADDRESS_MAX)),
                          SubAddress(0, 0, 0, Zeros(SUBADDRESS_MAX)), 0, Zeros(BEARER_DATA_MAX))

  function Zeros(n: nat): (r: seq<Byte>)
    ensures |r| == n
  {
    seq(n, i => 0)
  }

  function Decode(w: seq<Word>): Option<Sms> {
    match ReadAddress(w)
    case None => None
    case Some((m, u)) =>
      match ReadSubAddress(u)
      case None => None
      case Some((s, v)) =>
        match ReadBearer(v)
        case None => None
        case Some((len, data)) => Some(m.(subAddress := s, bearerDataLen := len, bearerData := data))
  }

  // ---------- round trip ----------

  /** What is left of a byte array of which the first n are sent. */
  function Kept(bytes: seq<Byte>, n: nat): seq<Byte>
    requires n <= |bytes|
  {
    bytes[..n] + Zeros(|bytes| - n)
  }

  /** All scalar fields, and of each array the bytes its count covers. */
  function Clamped(m: Sms): Sms
    requires WellFormed(m)
  {
    m.(address := m.address.(digits := Kept(m.address.digits, Limit(m.address.numberOfDigits, ADDRESS_MAX))),
       subAddress := m.subAddress.(digits :=
         Kept(m.subAddress.digits, Limit(m.subAddress.numberOfDigits, SUBADDRESS_MAX))),
       bearerData := Kept(m.bearerData, Limit(m.bearerDataLen, BEARER_DATA_MAX)))
  }

  lemma {:induction false} ClampedExactly(m: Sms)
    requires WellFormed(m)
    ensures var r := Clamped(m);
            && r == m.(address := m.address.(digits := r.address.digits),
                       subAddress := m.subAddress.(digits := r.subAddress.digits), bearerData := r.bearerData)
            && |r.address.digits| == |r.subAddress.digits| == 36 && |r.bearerData| == 255
            && (forall i :: 0 <= i < 36 ==>
                  r.address.digits[i] == if i < m.address.numberOfDigits then m.address.digits[i] else 0)
            && (forall i :: 0 <= i < 36 ==>
                  r.subAddress.digits[i] == if i < m.subAddress.numberOfDigits then m.subAddress.digits[i] else 0)
            && (forall i :: 0 <= i < 255 ==>
                  r.bearerData[i] == if i < m.bearerDataLen then m.bearerData[i] else 0)
  {
  }

  lemma {:induction false} DigitsWhole(bytes: seq<Byte>, n: nat, more: seq<Word>)
    requires n <= |bytes|
    ensures Digits(Words(bytes[..n]) + more, n, |bytes|) == Kept(bytes, n)
  {
  }

  lemma {:induction false} AddressWhole(m: Sms, more: seq<Word>)
    requires WellFormed(m)
    ensures var n := Limit(m.address.numberOfDigits, ADDRESS_MAX);
            ReadAddress(EncodeHead(m) + (Words(m.address.digits[..n]) + more)) ==
              Some((EMPTY.(teleserviceId := m.teleserviceId, isServicePresent := m.isServicePresent,
                           serviceCategory := m.serviceCategory, address := Clamped(m).address), more))
  {
    var n := Limit(m.address.numberOfDigits, ADDRESS_MAX);
    var d := Words(m.address.digits[..n]);
    var w := EncodeHead(m) + (d + more);
    assert w[8..] == d + more && w[8 + n..] == more;
    DigitsWhole(m.address.digits, n, more);
  }

  lemma {:induction false} SubAddressWhole(s: SubAddress, more: seq<Word>)
    requires |s.digits| == SUBADDRESS_MAX
    ensures var n := Limit(s.numberOfDigits, SUBADDRESS_MAX);
            ReadSubAddress(EncodeSub(s) + (Words(s.digits[..n]) + more))
            == Some((s.(digits := Kept(s.digits, n)), more))
  {
    var n := Limit(s.numberOfDigits, SUBADDRESS_MAX);
    var d := Words(s.digits[..n]);
    var w := EncodeSub(s) + (d + more);
    assert w[3..] == d + more && w[3 + n..] == more;
    DigitsWhole(s.digits, n, more);
  }

  lemma {:induction false} BearerWhole(len: Int32, data: seq<Byte>, more: seq<Word>)
    requires |data| == BEARER_DATA_MAX
    ensures var n := Limit(len, BEARER_DATA_MAX);
            ReadBearer([ToWord(len)] + (Words(data[..n]) + more)) == Some((len, Kept(data, n)))
  {
    var n := Limit(len, BEARER_DATA_MAX);
    var d := Words(data[..n]);
    var w := [ToWord(len)] + (d + more);
    assert w[1..] == d + more;
    DigitsWhole(data, n, more);
  }

  /** The words of a message, one by one: three counts say how many bytes of each array follow, never
      more than the array has and none for a negative count. */
  lemma {:induction false} Layout(m: Sms)
    requires WellFormed(m)
    ensures var w := Encode(m); var a, s := m.address, m.subAddress;
            var d := if a.numberOfDigits > 36 then 36 else a.numberOfDigits;
            var e := if s.numberOfDigits > 36 then 36 else s.numberOfDigits;
            var b := if m.bearerDataLen > 255 then 255 else if m.bearerDataLen < 0 then 0 else m.bearerDataLen;
            && |w| == 8 + d + 3 + e + 1 + b
            && w[..8] == [ToWord(m.teleserviceId), m.isServicePresent, ToWord(m.serviceCategory),
                          ToWord(a.digitMode), ToWord(a.numberMode), ToWord(a.numberType),
                          ToWord(a.numberPlan), a.numberOfDigits]
            && w[8..8 + d] == Words(a.digits[..d])
            && w[8 + d..11 + d] == [ToWord(s.subaddressType), s.odd, s.numberOfDigits]
            && w[11 + d..11 + d + e] == Words(s.digits[..e])
            && w[11 + d + e] == ToWord(m.bearerDataLen)
            && w[12 + d + e..] == Words(m.bearerData[..b])
  {
    hide EncodeHead, EncodeSub, Words, Encode, ToWord;
    HeadWords(m);
    var x, y, z := Parts(m);
    Cuts(EncodeHead(m), x, EncodeSub(m.subAddress), y, [ToWord(m.bearerDataLen)], z);
  }

  lemma Parts(m: Sms) returns (x: seq<Word>, y: seq<Word>, z: seq<Word>)
    requires WellFormed(m)
    ensures |x| == (if m.address.numberOfDigits > 36 then 36 else m.address.numberOfDigits)
    ensures |y| == (if m.subAddress.numberOfDigits > 36 then 36 else m.subAddress.numberOfDigits)
    ensures |z| == (if m.bearerDataLen > 255 then 255 else if m.bearerDataLen < 0 then 0 else m.bearerDataLen)
    ensures x == Words(m.address.digits[..|x|]) && y == Words(m.subAddress.digits[..|y|])
            && z == Words(m.bearerData[..|z|])
    ensures Encode(m) == EncodeHead(m) + x + EncodeSub(m.subAddress) + y + [ToWord(m.bearerDataLen)] + z
  {
    hide EncodeHead, EncodeSub;
    x := Words(m.address.digits[..Limit(m.address.numberOfDigits, ADDRESS_MAX)]);
    y := Words(m.subAddress.digits[..Limit(m.subAddress.numberOfDigits, SUBADDRESS_MAX)]);
    z := Words(m.bearerData[..Limit(m.bearerDataLen, BEARER_DATA_MAX)]);
    var head, sub := EncodeHead(m), EncodeSub(m.subAddress);
    assert head + x + sub + y + [ToWord(m.bearerDataLen)] + z == (head + x) + (sub + y) + [ToWord(m.bearerDataLen)] + z;
  }

  lemma Cuts<T>(a: seq<T>, b: seq<T>, c: seq<T>, d: seq<T>, e: seq<T>, f: seq<T>)
    ensures var w := a + b + c + d + e + f; var i := |a| + |b|; var j := i + |c|; var k := j + |d|;
            && |w| == k + |e| + |f|
            && w[..|a|] == a && w[|a|..i] == b && w[i..j] == c && w[j..k] == d
            && w[k..k + |e|] == e && w[k + |e|..] == f
            && (|e| > 0 ==> w[k] == e[0])
  {
  }

  lemma HeadWords(m: Sms)
    ensures EncodeHead(m) == [ToWord(m.teleserviceId), m.isServicePresent, ToWord(m.serviceCategory),
                              ToWord(m.address.digitMode), ToWord(m.address.numberMode),
                              ToWord(m.address.numberType), ToWord(m.address.numberPlan), m.address.numberOfDigits]
    ensures EncodeSub(m.subAddress)
         == [ToWord(m.subAddress.subaddressType), m.subAddress.odd, m.subAddress.numberOfDigits]
  {
  }

  /** Whatever is behind the message in the parcel, it is read back with all its scalar fields and
      the bytes its counts cover, also when a count is over its limit or negative. */
  lemma {:induction false} SmsRoundTrip(m: Sms, more: seq<Word>)
    requires WellFormed(m)
    ensures Decode(Encode(m) + more) == Some(Clamped(m))
    ensures var r := Clamped(m);
            && r == m.(address := m.address.(digits := r.address.digits),
                       subAddress := m.subAddress.(digits := r.subAddress.digits), bearerData := r.bearerData)
            && |r.address.digits| == |r.subAddress.digits| == 36 && |r.bearerData| == 255
            && (forall i :: 0 <= i < 36 ==>
                  r.address.digits[i] == if i < m.address.numberOfDigits then m.address.digits[i] else 0)
            && (forall i :: 0 <= i < 36 ==>
                  r.subAddress.digits[i] == if i < m.subAddress.numberOfDigits then m.subAddress.digits[i] else 0)
            && (forall i :: 0 <= i < 255 ==>
                  r.bearerData[i] == if i < m.bearerDataLen then m.bearerData[i] else 0)
  {
    ClampedExactly(m);
    var a := Words(m.address.digits[..Limit(m.address.numberOfDigits, ADDRESS_MAX)]);
    var s := Words(m.subAddress.digits[..Limit(m.subAddress.numberOfDigits, SUBADDRESS_MAX)]);
    var b := Words(m.bearerData[..Limit(m.bearerDataLen, BEARER_DATA_MAX)]);
    var v := [ToWord(m.bearerDataLen)] + (b + more);
    var u := EncodeSub(m.subAddress) + (s + v);
    assert Encode(m) + more == EncodeHead(m) + (a + u);
    AddressWhole(m, u);
    SubAddressWhole(m.subAddress, v);
    BearerWhole(m.bearerDataLen, m.bearerData, more);
  }

  lemma {:induction false} DigitsMore(x: seq<Word>, y: seq<Word>, n: nat, max: nat)
    requires n <= max && n <= |x|
    ensures Digits(x + y, n, max) == Digits(x, n, max)
  {
  }

  lemma {:induction false} AddressMore(x: seq<Word>, y: seq<Word>)
    requires ReadAddress(x).Some?
    ensures var (m, rest) := ReadAddress(x).value;
            ReadAddress(x + y) == Some((m, rest + y))
  {
    var n := Limit(Low(x[7]), ADDRESS_MAX);
    assert (x + y)[8..] == x[8..] + y && (x + y)[8 + n..] == x[8 + n..] + y;
    DigitsMore(x[8..], y, n, ADDRESS_MAX);
  }

  lemma {:induction false} SubAddressMore(x: seq<Word>, y: seq<Word>)
    requires ReadSubAddress(x).Some?
    ensures var (s, rest) := ReadSubAddress(x).value;
            ReadSubAddress(x + y) == Some((s, rest + y))
  {
    var n := Limit(Low(x[2]), SUBADDRESS_MAX);
    assert (x + y)[3..] == x[3..] + y && (x + y)[3 + n..] == x[3 + n..] + y;
    DigitsMore(x[3..], y, n, SUBADDRESS_MAX);
  }

  /** A message that is cut short anywhere is refused, although only the last read is checked. */
  lemma {:induction false} TruncatedRefused(m: Sms, n: nat)
    requires WellFormed(m) && n < |Encode(m)|
    ensures Decode(Encode(m)[..n]) == None
  {
    var x, y := Encode(m)[..n], Encode(m)[n..];
    var a := Words(m.address.digits[..Limit(m.address.numberOfDigits, ADDRESS_MAX)]);
    var s := Words(m.subAddress.digits[..Limit(m.subAddress.numberOfDigits, SUBADDRESS_MAX)]);
    var v := [ToWord(m.bearerDataLen)] + Words(m.bearerData[..Limit(m.bearerDataLen, BEARER_DATA_MAX)]);
    var u := EncodeSub(m.subAddress) + (s + v);
    assert x + y == Encode(m) == EncodeHead(m) + (a + u);
    AddressWhole(m, u);
    SubAddressWhole(m.subAddress, v);
    if ReadAddress(x).Some? {
      AddressMore(x, y);
      var rest := ReadAddress(x).value.1;
      assert rest + y == u;
      if ReadSubAddress(rest).Some? {
        SubAddressMore(rest, y);
        var last := ReadSubAddress(rest).value.1;
        assert last + y == v;
        assert last != [] ==> last[0] == v[0];
      }
    }
  }

  /** Sending a message on sends the same words. */
  lemma {:induction false} ResendSame(m: Sms)
    requires WellFormed(m)
    ensures WellFormed(Clamped(m)) && Encode(Clamped(m)) == Encode(m) && Clamped(Clamped(m)) == Clamped(m)
  {
    var c := Clamped(m);
    var i, j, k := Limit(m.address.numberOfDigits, ADDRESS_MAX), Limit(m.subAddress.numberOfDigits, SUBADDRESS_MAX),
                   Limit(m.bearerDataLen, BEARER_DATA_MAX);
    assert c.address.digits[..i] == m.address.digits[..i];
    assert c.subAddress.digits[..j] == m.subAddress.digits[..j];
    assert c.bearerData[..k] == m.bearerData[..k];
  }
}

/** The two functions over a parcel with a cursor. */
module CdmaSmsCode {
  import opened Common
  import opened CdmaSms

  const RIL_ERRNO_INVALID_RESPONSE := -1

  class Parcel {
    var data: seq<Word>
    var pos: nat

    constructor (words: seq<Word>)
      ensures data == words && pos == 0
    {
      data, pos := words, 0;
    }

    ghost predicate Valid()
      reads this
    {
      pos <= |data|
    }

    /** The words still to be read. */
    ghost function Rest(): seq<Word>
      requires Valid()
      reads this
    {
      data[pos..]
    }

    method WriteInt32(x: Int32)
      modifies `data
      ensures data == old(data) + [ToWord(x)]
    {
      data := data + [ToWord(x)];
    }

    method WriteByte(b: Byte)
      modifies `data
      ensures data == old(data) + [b]
    {
      data := data + [b];
    }

    /** A read behind the end fails and leaves the variable as it was. */
    method ReadInt32(was: Int32) returns (ok: bool, t: Int32)
      requires Valid()
      modifies `pos
      ensures Valid() && ok == (old(pos) < |data|)
      ensures pos == if ok then old(pos) + 1 else old(pos)
      ensures t == if ok then FromWord(data[old(pos)]) else was
    {
      ok, t := pos < |data|, was;
      if ok {
        t, pos := FromWord(data[pos]), pos + 1;
      }
    }

    method ReadByte(was: Byte) returns (ok: bool, t: Byte)
      requires Valid()
      modifies `pos
      ensures Valid() && ok == (old(pos) < |data|)
      ensures pos == if ok then old(pos) + 1 else old(pos)
      ensures t == if ok then Low(data[old(pos)]) else was
    {
      ok, t := pos < |data|, was;
      if ok {
        t, pos := Low(data[pos]), pos + 1;
      }
    }

    method WriteBytes(bytes: seq<Byte>, n: nat)
      requires n <= |bytes|
      modifies `data
      ensures data == old(data) + Words(bytes[..n])
    {
      for k := 0 to n
        invariant data == old(data) + Words(bytes[..k])
      {
        WriteByte(bytes[k]);
        assert Words(bytes[..k]) + [bytes[k]] == Words(bytes[..k + 1]);
      }
    }

    /** A copying loop into a zeroed array; `status` is that of the last read, also when there is none
        in the loop. */
    method ReadBytes(n: nat, max: nat, status: bool) returns (ok: bool, bytes: seq<Byte>)
      requires Valid() && n <= max && (!status ==> pos == |data|)
      modifies `pos
      ensures Valid() && ok == (status && old(pos) + n <= |data|)
      ensures ok ==> pos == old(pos) + n && bytes == Digits(old(Rest()), n, max)
      ensures !ok ==> pos == |data|
    {
      ok, bytes := status, Zeros(max);
      var ut: Byte := 0;
      for k := 0 to n
        invariant Valid() && |bytes| == max && ok == (status && old(pos) + k <= |data|)
        invariant ok ==> pos == old(pos) + k
        invariant ok ==> forall i :: 0 <= i < max ==> bytes[i] == if i < k then Low(data[old(pos) + i]) else 0
        invariant !ok ==> pos == |data|
      {
        ok, ut := ReadByte(ut);
        bytes := bytes[k := ut];
      }
    }
  }

  // ---------- responseCdmaSms ----------

  method ResponseCdmaSms(p: Parcel, response: Option<Sms>, rightLength: bool) returns (ret: int)
    requires response.Some? ==> WellFormed(response.value)
    modifies p`data
    ensures ret == if response.Some? && rightLength then 0 else RIL_ERRNO_INVALID_RESPONSE
    ensures p.data == if ret == 0 then old(p.data) + Encode(response.value) else old(p.data)
  {
    if response == None || !rightLength {
      return RIL_ERRNO_INVALID_RESPONSE;
    }
    var m := response.value;
    WriteHead(p, m);
    p.WriteBytes(m.address.digits, Limit(m.address.numberOfDigits, ADDRESS_MAX));
    WriteSubHead(p, m.subAddress);
    p.WriteBytes(m.subAddress.digits, Limit(m.subAddress.numberOfDigits, SUBADDRESS_MAX));
    p.WriteInt32(m.bearerDataLen);
    p.WriteBytes(m.bearerData, Limit(m.bearerDataLen, BEARER_DATA_MAX));
    ret := 0;
    assert p.data == old(p.data) + Encode(m);
  }

  method WriteHead(p: Parcel, m: Sms)
    modifies p`data
    ensures p.data == old(p.data) + EncodeHead(m)
  {
    p.WriteInt32(m.teleserviceId);
    p.WriteByte(m.isServicePresent);
    p.WriteInt32(m.serviceCategory);
    p.WriteInt32(m.address.digitMode);
    p.WriteInt32(m.address.numberMode);
    p.WriteInt32(m.address.numberType);
    p.WriteInt32(m.address.numberPlan);
    p.WriteByte(m.address.numberOfDigits);
  }

  method WriteSubHead(p: Parcel, s: SubAddress)
    modifies p`data
    ensures p.data == old(p.data) + EncodeSub(s)
  {
    p.WriteInt32(s.subaddressType);
    p.WriteByte(s.odd);
    p.WriteByte(s.numberOfDigits);
  }

  // ---------- dispatchCdmaSms ----------

  /** The eight words before the digits; the digits stay zero. */
  method DispatchHead(p: Parcel) returns (status: bool, m: Sms)
    requires p.Valid()
    modifies p`pos
    ensures p.Valid() && status == (old(p.pos) + 8 <= |p.data|)
    ensures status ==> p.pos == old(p.pos) + 8 && m == HeadAt(p.data, old(p.pos))
    ensures !status ==> p.pos == |p.data|
  {
    m := EMPTY;
    var t: Int32, ut: Byte := 0, 0;
    status, t := p.ReadInt32(t);
    m := m.(teleserviceId := t);
    status, ut := p.ReadByte(ut);
    m := m.(isServicePresent := ut);
    status, t := p.ReadInt32(t);
    m := m.(serviceCategory := t);
    var digitMode, numberMode, numberType, numberPlan;
    status, digitMode := p.ReadInt32(t);
    status, numberMode := p.ReadInt32(digitMode);
    status, numberType := p.ReadInt32(numberMode);
    status, numberPlan := p.ReadInt32(numberType);
    status, ut := p.ReadByte(ut);
    m := m.(address := Address(digitMode, numberMode, numberType, numberPlan, ut, Zeros(ADDRESS_MAX)));
  }

  ghost function HeadAt(w: seq<Word>, i: nat): Sms
    requires i + 8 <= |w|
  {
    EMPTY.(teleserviceId := FromWord(w[i]), isServicePresent := Low(w[i + 1]), serviceCategory := FromWord(w[i + 2]),
           address := Address(FromWord(w[i + 3]), FromWord(w[i + 4]), FromWord(w[i + 5]), FromWord(w[i + 6]),
                              Low(w[i + 7]), Zeros(ADDRESS_MAX)))
  }

  method DispatchAddress(p: Parcel) returns (status: bool, m: Sms)
    requires p.Valid()
    modifies p`pos
    ensures p.Valid()
    ensures match ReadAddress(old(p.Rest()))
            case None => !status && p.pos == |p.data|
            case Some((a, rest)) => status && m == a && p.Rest() == rest
  {
    ghost var w := p.Rest();
    status, m := DispatchHead(p);
    assert status ==> p.Rest() == w[8..];
    var digits;
    status, digits := p.ReadBytes(Limit(m.address.numberOfDigits, ADDRESS_MAX), ADDRESS_MAX, status);
    m := m.(address := m.address.(digits := digits));
  }

  method DispatchSubAddress(p: Parcel) returns (status: bool, s: SubAddress)
    requires p.Valid()
    modifies p`pos
    ensures p.Valid()
    ensures match ReadSubAddress(old(p.Rest()))
            case None => !status && p.pos == |p.data|
            case Some((a, rest)) => status && s == a && p.Rest() == rest
  {
    var t: Int32, odd: Byte, ut: Byte := 0, 0, 0;
    status, t := p.ReadInt32(t);
    status, odd := p.ReadByte(odd);
    status, ut := p.ReadByte(odd);
    ghost var w := old(p.Rest());
    assert status <==> |w| >= 3;
    assert status ==> p.Rest() == w[3..];
    var digits;
    status, digits := p.ReadBytes(Limit(ut, SUBADDRESS_MAX), SUBADDRESS_MAX, status);
    s := SubAddress(t, odd, ut, digits);
  }

  method DispatchBearer(p: Parcel) returns (status: bool, len: Int32, data: seq<Byte>)
    requires p.Valid()
    modifies p`pos
    ensures p.Valid()
    ensures match ReadBearer(old(p.Rest()))
            case None => !status
            case Some((l, d)) => status && len == l && data == d
  {
    len := 0;
    status, len := p.ReadInt32(len);
    ghost var w := old(p.Rest());
    assert status ==> p.Rest() == w[1..];
    status, data := p.ReadBytes(Limit(len, BEARER_DATA_MAX), BEARER_DATA_MAX, status);
  }

  /** The message onRequest is called with. Only the status of the very last read is looked at. */
  method DispatchCdmaSms(p: Parcel) returns (r: Option<Sms>)
    requires p.Valid()
    modifies p`pos
    ensures r == Decode(old(p.Rest()))
  {
    var status, m := DispatchAddress(p);
    ghost var u := p.Rest();
    var s;
    status, s := DispatchSubAddress(p);
    var len, data;
    status, len, data := DispatchBearer(p);
    if !status {
      return None;
    }
    r := Some(m.(subAddress := s, bearerDataLen := len, bearerData := data));
  }
}
