/**
 Struct values of the runtime: fields by name, and the order in which they were first set.
 Field names are given by pointer and length; `None` stands for null or text that is not UTF-8.
 */
module Structs {
  import opened Options

  datatype StructValue = StructValue(typeName: string, fields: map<string, int>, fieldOrder: seq<string>)

  function Empty(typeName: string): StructValue {
    StructValue(typeName, map[], [])
  }

  /** The order lists each field once, and nothing else. */
  ghost predicate WellFormed(sv: StructValue) {
    && (forall i, j :: 0 <= i < j < |sv.fieldOrder| ==> sv.fieldOrder[i] != sv.fieldOrder[j])
    && forall name :: name in sv.fields <==> name in sv.fieldOrder
  }

  function Set(sv: StructValue, name: string, value: int): StructValue {
    sv.(fields := sv.fields[name := value],
        fieldOrder := if name in sv.fields then sv.fieldOrder else sv.fieldOrder + [name])
  }

  function GetNamed(sv: StructValue, name: string): int {
    if name in sv.fields then sv.fields[name] else 0
  }

  /** A negative index becomes a huge unsigned one and is out of range like any other. */
  function GetIndex(sv: StructValue, index: int): int {
    if 0 <= index < |sv.fieldOrder| then GetNamed(sv, sv.fieldOrder[index]) else 0
  }

  /** Copies the named fields that `src` has, in the order of `names`. */
  function CopyFields(dest: StructValue, src: StructValue, names: seq<string>): StructValue
    decreases |names|
  {
    if names == [] then dest
    else if names[0] in src.fields then CopyFields(Set(dest, names[0], src.fields[names[0]]), src, names[1..])
    else CopyFields(dest, src, names[1..])
  }

  function Copy(dest: StructValue, src: StructValue): StructValue {
    CopyFields(dest, src, src.fieldOrder)
  }

  // ---------------------------------------------------------------------------------------
  // Insertion-ordered maps
  // ---------------------------------------------------------------------------------------

  /** An insertion-ordered map: entries in the order their keys were first put. */
  type Ordered = seq<(string, int)>

  function Put(m: Ordered, name: string, value: int): Ordered
    decreases |m|
  {
    if m == [] then [(name, value)]
    else if m[0].0 == name then [(name, value)] + m[1..]
    else [m[0]] + Put(m[1..], name, value)
  }

  function PutAll(m: Ordered, entries: Ordered): Ordered
    decreases |entries|
  {
    if entries == [] then m else PutAll(Put(m, entries[0].0, entries[0].1), entries[1..])
  }

  /** The map that a list of names with their values stands for. */
  function EntriesOf(fields: map<string, int>, names: seq<string>): (m: Ordered)
    ensures |m| == |names|
    ensures forall i :: 0 <= i < |m| ==> m[i] == (names[i], if names[i] in fields then fields[names[i]] else 0)
    decreases |names|
  {
    if names == [] then []
    else [(names[0], if names[0] in fields then fields[names[0]] else 0)] + EntriesOf(fields, names[1..])
  }

  function Entries(sv: StructValue): Ordered {
    EntriesOf(sv.fields, sv.fieldOrder)
  }

  lemma SetKeepsForm(sv: StructValue, name: string, value: int)
    requires WellFormed(sv)
    ensures WellFormed(Set(sv, name, value))
  {
  }

  lemma EntriesAgree(a: map<string, int>, b: map<string, int>, names: seq<string>)
    requires forall n :: n in names ==> (n in a <==> n in b) && (n in a ==> a[n] == b[n])
    ensures EntriesOf(a, names) == EntriesOf(b, names)
  {
    hide EntriesOf;
    assert forall i :: 0 <= i < |names| ==> names[i] in names;
  }

  lemma FirstEntry(fields: map<string, int>, names: seq<string>)
    requires names != []
    ensures var m := EntriesOf(fields, names);
            m[0].0 == names[0] && m == [m[0]] + EntriesOf(fields, names[1..]) && m[1..] == EntriesOf(fields, names[1..])
    ensures names[0] in fields ==> EntriesOf(fields, names)[0].1 == fields[names[0]]
  {
  }

  /** Putting into entries without the key appends; with the key it replaces in place. */
  lemma {:induction false} PutIntoEntries(fields: map<string, int>, names: seq<string>, name: string, value: int)
    requires forall i, j :: 0 <= i < j < |names| ==> names[i] != names[j]
    ensures Put(EntriesOf(fields, names), name, value)
         == EntriesOf(fields[name := value], if name in names then names else names + [name])
    decreases |names|
  {
    var after := fields[name := value];
    if names == [] {
      assert [] + [name] == [name];
    } else if names[0] == name {
      ReplacedInPlace(fields, names, value);
    } else {
      var m, rest := EntriesOf(fields, names), names[1..];
      assert name in names <==> name in rest;
      assert (names + [name])[1..] == rest + [name];
      hide EntriesOf;
      PutIntoEntries(fields, rest, name, value);
      FirstEntry(fields, names);
      FirstEntry(after, names);
      FirstEntry(after, names + [name]);
    }
  }

  lemma ReplacedInPlace(fields: map<string, int>, names: seq<string>, value: int)
    requires names != [] && forall i, j :: 0 <= i < j < |names| ==> names[i] != names[j]
    ensures Put(EntriesOf(fields, names), names[0], value) == EntriesOf(fields[names[0] := value], names)
  {
    hide EntriesOf;
    var after := fields[names[0] := value];
    FirstEntry(fields, names);
    FirstEntry(after, names);
    forall n | n in names[1..] ensures n != names[0] {
      var i :| 0 <= i < |names| - 1 && names[1..][i] == n;
      assert names[i + 1] != names[0];
    }
    EntriesAgree(fields, after, names[1..]);
  }

  /** Setting a field of a struct is putting into the insertion-ordered map it stands for. */
  lemma SetRefinesPut(sv: StructValue, name: string, value: int)
    requires WellFormed(sv)
    ensures Entries(Set(sv, name, value)) == Put(Entries(sv), name, value)
  {
    PutIntoEntries(sv.fields, sv.fieldOrder, name, value);
  }

  lemma {:induction false} CopyFieldsRefines(dest: StructValue, src: StructValue, names: seq<string>)
    requires WellFormed(dest) && forall name :: name in names ==> name in src.fields
    ensures WellFormed(CopyFields(dest, src, names))
    ensures Entries(CopyFields(dest, src, names)) == PutAll(Entries(dest), EntriesOf(src.fields, names))
    ensures dest.fieldOrder <= CopyFields(dest, src, names).fieldOrder
    ensures forall n :: n in CopyFields(dest, src, names).fields <==> n in dest.fields || n in names
    ensures forall n :: n in CopyFields(dest, src, names).fields ==>
              CopyFields(dest, src, names).fields[n] == if n in names then src.fields[n] else dest.fields[n]
    decreases |names|
  {
    hide Entries, WellFormed;
    if names != [] {
      var name, value := names[0], src.fields[names[0]];
      var next := Set(dest, name, value);
      SetKeepsForm(dest, name, value);
      SetRefinesPut(dest, name, value);
      CopyFieldsRefines(next, src, names[1..]);
      assert EntriesOf(src.fields, names)[1..] == EntriesOf(src.fields, names[1..]);
      assert forall n :: n in names <==> n == name || n in names[1..];
    }
  }

  /**
   Copying is overriding: the fields of the source win, the destination's order stays a prefix, and
   the insertion-ordered maps are merged entry by entry.
   */
  lemma CopyOverrides(dest: StructValue, src: StructValue)
    requires WellFormed(dest) && WellFormed(src)
    ensures WellFormed(Copy(dest, src))
    ensures Copy(dest, src).fields == dest.fields + src.fields
    ensures dest.fieldOrder <= Copy(dest, src).fieldOrder
    ensures Entries(Copy(dest, src)) == PutAll(Entries(dest), Entries(src))
  {
    assert forall name :: name in src.fieldOrder <==> name in src.fields;
    hide WellFormed, CopyFields, Entries, PutAll;
    CopyFieldsRefines(dest, src, src.fieldOrder);
    SameMap(Copy(dest, src).fields, dest.fields, src.fields);
  }

  lemma SameMap(m: map<string, int>, a: map<string, int>, b: map<string, int>)
    requires forall n :: n in m <==> n in a || n in b
    requires forall n :: n in m ==> m[n] == if n in b then b[n] else a[n]
    ensures m == a + b
  {
  }

  lemma {:induction false} NothingToCopy(dest: StructValue, src: StructValue, names: seq<string>)
    requires forall name :: name in names && name in src.fields ==>
               name in dest.fields && dest.fields[name] == src.fields[name]
    ensures CopyFields(dest, src, names) == dest
    decreases |names|
  {
    if names != [] {
      assert names[0] in names && forall n :: n in names[1..] ==> n in names;
      if names[0] in src.fields {
        assert dest.fields[names[0] := src.fields[names[0]]] == dest.fields;
      }
      NothingToCopy(dest, src, names[1..]);
    }
  }

  /** A second copy changes nothing, nor does copying a struct onto itself. */
  lemma CopyIsIdempotent(dest: StructValue, src: StructValue)
    requires WellFormed(dest) && WellFormed(src)
    ensures Copy(Copy(dest, src), src) == Copy(dest, src)
    ensures Copy(src, src) == src
  {
    CopyOverrides(dest, src);
    NothingToCopy(Copy(dest, src), src, src.fieldOrder);
    NothingToCopy(src, src, src.fieldOrder);
  }

  // ---------------------------------------------------------------------------------------
  // Indices
  // ---------------------------------------------------------------------------------------

  /** Any number of sets, one after the other. */
  function SetAll(sv: StructValue, sets: seq<(string, int)>): StructValue
    decreases |sets|
  {
    if sets == [] then sv else SetAll(Set(sv, sets[0].0, sets[0].1), sets[1..])
  }

  lemma {:induction false} SetAllRefines(sv: StructValue, sets: seq<(string, int)>)
    requires WellFormed(sv)
    ensures WellFormed(SetAll(sv, sets))
    ensures Entries(SetAll(sv, sets)) == PutAll(Entries(sv), sets)
    decreases |sets|
  {
    hide Entries, WellFormed, Set;
    if sets != [] {
      SetKeepsForm(sv, sets[0].0, sets[0].1);
      SetRefinesPut(sv, sets[0].0, sets[0].1);
      SetAllRefines(Set(sv, sets[0].0, sets[0].1), sets[1..]);
    }
  }

  /**
   In every reachable struct the order enumerates the fields without repetition, reading by index is
   reading the i-th entry of the insertion-ordered map, and by name that entry's key gives the same.
   */
  lemma IndexReadsTheOrder(typeName: string, sets: seq<(string, int)>, i: nat)
    ensures var sv := SetAll(Empty(typeName), sets);
            var m := PutAll([], sets);
            && WellFormed(sv) && |m| == |sv.fieldOrder|
            && if i < |m| then GetIndex(sv, i) == m[i].1 == GetNamed(sv, m[i].0) && sv.fieldOrder[i] == m[i].0
               else GetIndex(sv, i) == 0
  {
    assert Entries(Empty(typeName)) == [];
    SetAllRefines(Empty(typeName), sets);
    hide PutAll, SetAll, WellFormed;
    var sv := SetAll(Empty(typeName), sets);
    assert Entries(sv) == EntriesOf(sv.fields, sv.fieldOrder);
  }

  /**
   The index given to a set is not used.  Reading that index back gives the value set, for every value,
   exactly when the field stands at that place of the order; a field set for the first time stands last.
   */
  lemma IndexSetThenGet(sv: StructValue, index: int, name: string)
    requires WellFormed(sv)
    ensures (forall v :: GetIndex(Set(sv, name, v), index) == v)
       <==> (var order := Set(sv, name, 0).fieldOrder; 0 <= index < |order| && order[index] == name)
    ensures name !in sv.fields ==> forall v :: GetIndex(Set(sv, name, v), |sv.fieldOrder|) == v
  {
    var order := Set(sv, name, 0).fieldOrder;
    forall v ensures Set(sv, name, v).fieldOrder == order {
    }
    if !(0 <= index < |order| && order[index] == name) {
      var x := GetIndex(Set(sv, name, 0), index);
      var y := GetIndex(Set(sv, name, 1), index);
      assert x == y;
    }
  }

  predicate DistinctNames(entries: Ordered) {
    forall i, j :: 0 <= i < j < |entries| ==> entries[i].0 != entries[j].0
  }

  lemma {:induction false} PutAppends(m: Ordered, name: string, value: int)
    requires forall i :: 0 <= i < |m| ==> m[i].0 != name
    ensures Put(m, name, value) == m + [(name, value)]
    decreases |m|
  {
    if m != [] {
      PutAppends(m[1..], name, value);
      assert [m[0]] + (m[1..] + [(name, value)]) == m + [(name, value)];
    }
  }

  lemma {:induction false} DistinctPutsAppend(m: Ordered, entries: Ordered)
    requires DistinctNames(m + entries)
    ensures PutAll(m, entries) == m + entries
    decreases |entries|
  {
    if entries == [] {
      assert m + entries == m;
    } else {
      var (name, value) := entries[0];
      forall i | 0 <= i < |m| ensures m[i].0 != name {
        assert (m + entries)[i] == m[i] && (m + entries)[|m|] == entries[0];
      }
      PutAppends(m, name, value);
      assert m + [(name, value)] + entries[1..] == m + entries;
      DistinctPutsAppend(m + [(name, value)], entries[1..]);
    }
  }

  /** A struct whose fields are first set in index order has the value set at each index. */
  lemma {:induction false} SetInOrderThenGet(typeName: string, sets: seq<(string, int)>, i: nat)
    requires DistinctNames(sets) && i < |sets|
    ensures var sv := SetAll(Empty(typeName), sets);
            GetIndex(sv, i) == sets[i].1 && i < |sv.fieldOrder| && sv.fieldOrder[i] == sets[i].0
  {
    hide PutAll, SetAll, GetIndex, GetNamed;
    assert [] + sets == sets;
    DistinctPutsAppend([], sets);
    IndexReadsTheOrder(typeName, sets, i);
  }

  /** What sets and copies leave alone, and what is not there. */
  lemma Untouched(sv: StructValue, src: StructValue, name: string, value: int, other: string, index: int)
    requires WellFormed(sv) && WellFormed(src)
    ensures Set(sv, name, value).typeName == sv.typeName == Copy(sv, src).typeName
    ensures GetNamed(Set(sv, name, value), name) == value
    ensures other != name ==> GetNamed(Set(sv, name, value), other) == GetNamed(sv, other)
    ensures GetNamed(Copy(sv, src), other) == if other in src.fields then src.fields[other] else GetNamed(sv, other)
    ensures other !in sv.fields ==> GetNamed(sv, other) == 0
    ensures !(0 <= index < |sv.fieldOrder|) ==> GetIndex(sv, index) == 0
  {
    CopyOverrides(sv, src);
    CopyKeepsType(sv, src, src.fieldOrder);
    hide CopyFields;
  }

  lemma {:induction false} CopyKeepsType(dest: StructValue, src: StructValue, names: seq<string>)
    ensures CopyFields(dest, src, names).typeName == dest.typeName
    decreases |names|
  {
    if names != [] {
      CopyKeepsType(if names[0] in src.fields then Set(dest, names[0], src.fields[names[0]]) else dest, src, names[1..]);
    }
  }
}
