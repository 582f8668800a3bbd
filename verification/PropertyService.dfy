/** The property table of init: a fixed area of entries that other processes read while it is
    being written, updated only by property_set. */
module PropertyTable {
  import opened Common

  const PA_COUNT_MAX: nat := 247
  const PA_INFO_START: nat := 1024
  const PA_INFO_SIZE: nat := 128
  const PROP_NAME_MAX: nat := 32
  const PROP_VALUE_MAX: nat := 92
  const TOP: nat := 0x100_0000
  const U32: nat := 0x1_0000_0000

  /** property_set as seen by its caller. `nested` are the calls made by the actions that the
      change triggers, before the call returns. */
  datatype Call = Set(name: string, value: string, nested: seq<Call>)

  type Props = map<string, string>

  predicate IsReadOnly(name: string) {
    "ro." <= name
  }

  /** property_set takes this write. */
  predicate Takes(m: Props, name: string, value: string) {
    && 1 <= |name| < PROP_NAME_MAX && |value| < PROP_VALUE_MAX
    && (if name in m then !IsReadOnly(name) else |m| < PA_COUNT_MAX)
  }

  function Write(m: Props, name: string, value: string): Props {
    if Takes(m, name, value) then m[name := value] else m
  }

  const NET_CHANGE := "net.change"

  predicate IsNet(name: string) {
    "net." <= name
  }

  /** The table after one call: the write itself, the note of a changed net. property, and the
      calls it sets off. Writing net.change sets off nothing. */
  function Apply(m: Props, call: Call): Props
    decreases call, 0
  {
    if !Takes(m, call.name, call.value) then m
    else
      var m1 := Write(m, call.name, call.value);
      if call.name == NET_CHANGE then m1
      else ApplyAll(if IsNet(call.name) then Write(m1, NET_CHANGE, call.name) else m1, call.nested)
  }

  function ApplyAll(m: Props, calls: seq<Call>): Props
    decreases calls
  {
    if calls == [] then m else ApplyAll(Apply(m, calls[0]), calls[1..])
  }

  // ---------- write-once keys, bounded size ----------

  ghost predicate Extends(m: Props, m': Props) {
    && m.Keys <= m'.Keys
    && (forall k :: k in m && IsReadOnly(k) ==> m'[k] == m[k])
    && (|m| <= PA_COUNT_MAX ==> |m'| <= PA_COUNT_MAX)
  }

  lemma {:induction false} WriteExtends(m: Props, name: string, value: string)
    ensures Extends(m, Write(m, name, value))
  {
    if name in m {
      assert m[name := value].Keys == m.Keys;
      assert |m[name := value]| == |m|;
    }
  }

  /** In every run, nested calls included, "ro." keys keep their first value, no key is ever
      dropped, and the table never outgrows its 247 entries. */
  lemma {:induction false} RunExtends(m: Props, calls: seq<Call>)
    ensures Extends(m, ApplyAll(m, calls))
    decreases calls
  {
    if calls != [] {
      CallExtends(m, calls[0]);
      RunExtends(Apply(m, calls[0]), calls[1..]);
    }
  }

  lemma {:induction false} CallExtends(m: Props, call: Call)
    ensures Extends(m, Apply(m, call))
    decreases call, 0
  {
    if Takes(m, call.name, call.value) {
      var m1 := Write(m, call.name, call.value);
      WriteExtends(m, call.name, call.value);
      WriteExtends(m1, NET_CHANGE, call.name);
      RunExtends(if IsNet(call.name) then Write(m1, NET_CHANGE, call.name) else m1, call.nested);
    }
  }

  // ---------- the last accepted value ----------

  datatype Entry = Entry(name: string, value: string)

  /** The writes a call gets accepted, its nested calls included, in the order they happen. */
  function Accepted(m: Props, call: Call): seq<Entry>
    decreases call, 0
  {
    if !Takes(m, call.name, call.value) then []
    else
      var m1 := Write(m, call.name, call.value);
      [Entry(call.name, call.value)] +
      if call.name == NET_CHANGE then []
      else if IsNet(call.name) && Takes(m1, NET_CHANGE, call.name) then
        [Entry(NET_CHANGE, call.name)] + AllAccepted(Write(m1, NET_CHANGE, call.name), call.nested)
      else AllAccepted(m1, call.nested)
  }

  function AllAccepted(m: Props, calls: seq<Call>): seq<Entry>
    decreases calls
  {
    if calls == [] then [] else Accepted(m, calls[0]) + AllAccepted(Apply(m, calls[0]), calls[1..])
  }

  /** The value a reader should see: the last one written, or the one from before. */
  function Latest(m: Props, log: seq<Entry>, name: string): Option<string> {
    if log == [] then (if name in m then Some(m[name]) else None)
    else if log[|log| - 1].name == name then Some(log[|log| - 1].value)
    else Latest(m, log[..|log| - 1], name)
  }

  function Get(m: Props, name: string): Option<string> {
    if name in m then Some(m[name]) else None
  }

  lemma {:induction false} LatestConcat(m: Props, a: seq<Entry>, b: seq<Entry>, m': Props, name: string)
    requires Get(m', name) == Latest(m, a, name)
    ensures Latest(m', b, name) == Latest(m, a + b, name)
  {
    if b == [] {
      assert a + b == a;
    } else {
      assert (a + b)[..|a + b| - 1] == a + b[..|b| - 1];
      LatestConcat(m, a, b[..|b| - 1], m', name);
    }
  }

  lemma {:induction false} LatestOne(m: Props, e: Entry, name: string)
    ensures Latest(m, [e], name) == Get(m[e.name := e.value], name)
  {
    assert [e][..0] == [];
  }

  /** After any run a property has the last value that was accepted for it. */
  lemma {:induction false} RunLatest(m: Props, calls: seq<Call>, name: string)
    ensures Get(ApplyAll(m, calls), name) == Latest(m, AllAccepted(m, calls), name)
    decreases calls
  {
    if calls != [] {
      var m1 := Apply(m, calls[0]);
      CallLatest(m, calls[0], name);
      RunLatest(m1, calls[1..], name);
      LatestConcat(m, Accepted(m, calls[0]), AllAccepted(m1, calls[1..]), m1, name);
    }
  }

  lemma {:induction false} CallLatest(m: Props, call: Call, name: string)
    ensures Get(Apply(m, call), name) == Latest(m, Accepted(m, call), name)
    decreases call, 0
  {
    if Takes(m, call.name, call.value) {
      var e := Entry(call.name, call.value);
      var m1 := Write(m, call.name, call.value);
      LatestOne(m, e, name);
      if call.name == NET_CHANGE {
        assert [e] + [] == [e];
      } else if IsNet(call.name) && Takes(m1, NET_CHANGE, call.name) {
        var e2, m2 := Entry(NET_CHANGE, call.name), Write(m1, NET_CHANGE, call.name);
        LatestOne(m1, e2, name);
        RunLatest(m2, call.nested, name);
        LatestConcat(m1, [e2], AllAccepted(m2, call.nested), m2, name);
        LatestConcat(m, [e], [e2] + AllAccepted(m2, call.nested), m1, name);
      } else {
        RunLatest(m1, call.nested, name);
        LatestConcat(m, [e], AllAccepted(m1, call.nested), m1, name);
      }
    }
  }

  // ---------- one call ----------

  /** A set with a legal name and value is refused only for a "ro." property that exists and for a new
      one in a full table. It is followed by the note of a changed "net." property, as long as there is
      room for the note, and by the calls it triggers; setting "net.change" triggers nothing. */
  lemma SetExactly(m: Props, name: string, value: string, nested: seq<Call>)
    ensures var takes := 1 <= |name| <= 31 && |value| <= 91 && if name in m then !("ro." <= name) else |m| < 247;
            var m1 := m[name := value];
            var note := "net." <= name && ("net.change" in m1 || |m1| < 247);
            && (Takes(m, name, value) <==> takes)
            && Apply(m, Set(name, value, nested))
              == if !takes then m
                 else if name == "net.change" then m1
                 else ApplyAll(if note then m1["net.change" := name] else m1, nested)
  {
    assert !IsReadOnly(NET_CHANGE) by { assert NET_CHANGE[0] != "ro."[0]; }
  }

  /** Triggered calls all take place, one after the other. */
  lemma {:induction false} CallsInTurn(m: Props, a: seq<Call>, call: Call, b: seq<Call>)
    ensures ApplyAll(m, a + [call] + b) == ApplyAll(Apply(ApplyAll(m, a), call), b)
    decreases |a|
  {
    var all := a + [call] + b;
    if a == [] {
      assert all[0] == call && all[1..] == b;
    } else {
      assert all[0] == a[0] && all[1..] == a[1..] + [call] + b;
      CallsInTurn(Apply(m, a[0]), a[1..], call, b);
    }
  }

  /** net.change names the net. property just written, unless the table had no room left for it. */
  lemma NetChangeTracks(m: Props, name: string, value: string)
    requires |name| >= 4 && name[..4] == "net." && name != "net.change" && Takes(m, name, value)
    ensures var m1 := m[name := value];
            Get(Apply(m, Set(name, value, [])), "net.change") == Some(name)
            <==> "net.change" in m || |m1| < 247
  {
    SetExactly(m, name, value, []);
  }
}

/** The shared area itself: a counter, a table of contents and an array of entries. */
module PropertyArea {
  import opened Common
  import opened PropertyTable

  datatype PropInfo = PropInfo(name: string, value: string, serial: nat)

  /** A settled serial is even and carries the length of the value in its top byte. */
  predicate Settled(serial: nat, value: string) {
    serial < U32 && serial / TOP == |value| && serial % 2 == 0
  }

  function WriteBit(serial: nat): nat {
    if serial % 2 == 0 then serial + 1 else serial
  }

  /** The serial after one more update; only 24 bits of it count the updates. */
  function NextSerial(serial: nat, len: nat): nat {
    len * TOP + (WriteBit(serial) + 1) % TOP
  }

  lemma SerialSettles(serial: nat, old': string, value: string)
    requires Settled(serial, old') && |value| < PROP_VALUE_MAX
    ensures Settled(NextSerial(serial, |value|), value)
    ensures WriteBit(serial) % 2 == 1
    ensures NextSerial(serial, |value|) % TOP == (serial % TOP + 2) % TOP
  {
    var low := (serial + 2) % TOP;
    assert serial + 2 == (serial + 2) / TOP * TOP + low;
    assert low % 2 == 0;
    assert NextSerial(serial, |value|) == |value| * TOP + low;
  }

  lemma FreshSerialSettled(value: string)
    requires |value| < PROP_VALUE_MAX
    ensures Settled(|value| * TOP, value)
  {
  }

  /** The table the entries stand for. */
  function Table(s: seq<PropInfo>): Props {
    if s == [] then map[]
    else Table(s[..|s| - 1])[s[|s| - 1].name := s[|s| - 1].value]
  }

  ghost predicate Unique(s: seq<PropInfo>) {
    forall i, j :: 0 <= i < j < |s| ==> s[i].name != s[j].name
  }

  lemma {:induction false} TableKeys(s: seq<PropInfo>, name: string)
    ensures name in Table(s) <==> exists i :: 0 <= i < |s| && s[i].name == name
  {
    if s != [] {
      var n := |s| - 1;
      TableKeys(s[..n], name);
      if name == s[n].name {
        assert s[n].name == name;
      } else if i :| 0 <= i < |s| && s[i].name == name {
        assert s[..n][i].name == name;
      }
    }
  }

  lemma {:induction false} TableValue(s: seq<PropInfo>, i: nat)
    requires Unique(s) && i < |s|
    ensures s[i].name in Table(s) && Table(s)[s[i].name] == s[i].value
  {
    var n := |s| - 1;
    if i < n {
      TableValue(s[..n], i);
    }
  }

  lemma {:induction false} TableSize(s: seq<PropInfo>)
    requires Unique(s)
    ensures |Table(s)| == |s|
  {
    if s != [] {
      var n := |s| - 1;
      TableSize(s[..n]);
      TableKeys(s[..n], s[n].name);
    }
  }

  lemma {:induction false} TableUpdate(s: seq<PropInfo>, i: nat, info: PropInfo)
    requires Unique(s) && i < |s| && info.name == s[i].name
    ensures Table(s[i := info]) == Table(s)[info.name := info.value]
  {
    var n := |s| - 1;
    if i == n {
      assert s[i := info][..n] == s[..n];
    } else {
      assert s[i := info][..n] == s[..n][i := info];
      TableUpdate(s[..n], i, info);
    }
  }

  /** Entry i has a legal name and value, a settled serial, and a table-of-contents word with the
      length of the name and the offset of the entry. */
  predicate EntryOk(info: PropInfo, word: nat, i: nat) {
    && 1 <= |info.name| < PROP_NAME_MAX && |info.value| < PROP_VALUE_MAX
    && Settled(info.serial, info.value)
    && word == |info.name| * TOP + PA_INFO_START + PA_INFO_SIZE * i
  }

  lemma UniqueAppend(s: seq<PropInfo>, info: PropInfo)
    requires Unique(s) && info.name !in Table(s)
    ensures Unique(s + [info]) && Table(s + [info]) == Table(s)[info.name := info.value]
  {
    TableKeys(s, info.name);
    assert (s + [info])[..|s|] == s;
  }

  class PropArea {
    var count: nat
    var serial: nat
    const toc: array<nat>
    const infos: array<PropInfo>

    ghost predicate Valid()
      reads this, toc, infos
    {
      && toc.Length == infos.Length == PA_COUNT_MAX && count <= PA_COUNT_MAX && serial < U32
      && Unique(infos[..count])
      && (forall i :: 0 <= i < count ==> EntryOk(infos[i], toc[i], i))
    }

    ghost function Abs(): Props
      requires Valid()
      reads this, toc, infos
    {
      Table(infos[..count])
    }

    /** init_property_area. */
    constructor ()
      ensures Valid() && Abs() == map[] && fresh(toc) && fresh(infos)
    {
      count := 0;
      serial := 0;
      toc := new nat[PA_COUNT_MAX](_ => 0);
      infos := new PropInfo[PA_COUNT_MAX](_ => PropInfo("", "", 0));
    }

    /** The entry with this name, found through the table of contents. */
    method Find(name: string) returns (found: Option<nat>)
      requires Valid()
      ensures found == None ==> name !in Abs()
      ensures found != None ==> found.value < count && infos[found.value].name == name && name in Abs()
    {
      var i: nat := 0;
      while i < count
        invariant i <= count && forall j :: 0 <= j < i ==> infos[j].name != name
      {
        assert EntryOk(infos[i], toc[i], i);
        if toc[i] / TOP == |name| && infos[i].name == name {
          TableValue(infos[..count], i);
          return Some(i);
        }
        i := i + 1;
      }
      TableKeys(infos[..count], name);
      return None;
    }

    method PropertyGet(name: string) returns (value: Option<string>)
      requires Valid()
      ensures value == Get(Abs(), name)
    {
      if |name| >= PROP_NAME_MAX {
        assert forall i :: 0 <= i < count ==> EntryOk(infos[i], toc[i], i) && infos[..count][i] == infos[i];
        TableKeys(infos[..count], name);
        return None;
      }
      var found := Find(name);
      if found == None {
        return None;
      }
      TableValue(infos[..count], found.value);
      return Some(infos[found.value].value);
    }

    method UpdatePropInfo(i: nat, value: string)
      requires Valid() && i < count && |value| < PROP_VALUE_MAX
      modifies infos
      ensures Valid() && Abs() == old(Abs())[infos[i].name := value] && infos[i].name == old(infos[i].name)
      ensures infos[i].serial == NextSerial(old(infos[i].serial), |value|)
    {
      ghost var s := infos[..count];
      var pi := infos[i];
      assert EntryOk(pi, toc[i], i);
      SerialSettles(pi.serial, pi.value, value);
      pi := pi.(serial := WriteBit(pi.serial));
      pi := pi.(value := value);
      pi := pi.(serial := |value| * TOP + (pi.serial + 1) % TOP);
      TableUpdate(s, i, pi);
      infos[i] := pi;
      assert infos[..count] == s[i := pi];
    }

    method AddEntry(name: string, value: string)
      requires Valid() && count < PA_COUNT_MAX && name !in Abs()
      requires 1 <= |name| < PROP_NAME_MAX && |value| < PROP_VALUE_MAX
      modifies this, toc, infos
      ensures Valid() && Abs() == old(Abs())[name := value] && count == old(count) + 1
      ensures toc[old(count)] == |name| * TOP + PA_INFO_START + PA_INFO_SIZE * old(count)
    {
      var info := PropInfo(name, value, |value| * TOP);
      FreshSerialSettled(value);
      UniqueAppend(infos[..count], info);
      infos[count] := info;
      toc[count] := |name| * TOP + PA_INFO_START + PA_INFO_SIZE * count;
      assert infos[..count + 1] == old(infos[..count]) + [info];
      count := count + 1;
      serial := (serial + 1) % U32;
    }

    /** property_set, with the calls its triggers make. It refines the finite map. */
    method PropertySet(call: Call) returns (ok: bool)
      requires Valid()
      modifies this, toc, infos
      ensures Valid() && Abs() == Apply(old(Abs()), call)
      ensures ok <==> Takes(old(Abs()), call.name, call.value)
      decreases call, 0
    {
      var name, value := call.name, call.value;
      TableSize(infos[..count]);
      if |name| >= PROP_NAME_MAX || |value| >= PROP_VALUE_MAX || |name| < 1 {
        return false;
      }
      var pi := Find(name);
      if pi != None {
        if IsReadOnly(name) {
          return false;
        }
        UpdatePropInfo(pi.value, value);
        serial := (serial + 1) % U32;
      } else {
        if count == PA_COUNT_MAX {
          return false;
        }
        AddEntry(name, value);
      }
      ok := true;
      if IsNet(name) {
        if name == NET_CHANGE {
          return;
        }
        NoteNetChange(name);
      }
      PropertyChanged(call.nested);
    }

    /** The inner call property_set("net.change", name), which sets off nothing itself. */
    method NoteNetChange(name: string)
      requires Valid() && 1 <= |name| < PROP_NAME_MAX
      modifies this, toc, infos
      ensures Valid() && Abs() == Write(old(Abs()), NET_CHANGE, name)
    {
      TableSize(infos[..count]);
      NetChangeWritable();
      var pi := Find(NET_CHANGE);
      if pi != None {
        UpdatePropInfo(pi.value, name);
        serial := (serial + 1) % U32;
      } else if count < PA_COUNT_MAX {
        AddEntry(NET_CHANGE, name);
      }
    }

    method PropertyChanged(nested: seq<Call>)
      requires Valid()
      modifies this, toc, infos
      ensures Valid() && Abs() == ApplyAll(old(Abs()), nested)
      decreases nested
    {
      if nested != [] {
        var ok := PropertySet(nested[0]);
        PropertyChanged(nested[1..]);
      }
    }
  }

  lemma NetChangeWritable()
    ensures !IsReadOnly(NET_CHANGE) && |NET_CHANGE| < PROP_NAME_MAX
  {
    assert NET_CHANGE[0] != "ro."[0];
  }
}
