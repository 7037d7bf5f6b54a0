/** Reading attributes back (attributesForData and valueByType of graphml/graphml.go). */
module AttributeValues {
  import opened Basics
  import opened NodeIds
  import opened GraphDocument
  import opened Floats
  import G = GraphDocument

  // An int64 in decimal: an optional sign and at least one digit.
  function ParseDecimal(s: string): Option<int> {
    var negative := s != "" && s[0] == '-';
    var u := if s != "" && (s[0] == '-' || s[0] == '+') then s[1..] else s;
    if u == "" || ParseDigits(u, 10).Err? then None
    else if negative then InRange(-(ParseDigits(u, 10).value as int))
    else InRange(ParseDigits(u, 10).value)
  }

  function InRange(i: int): Option<int> {
    if -0x8000_0000_0000_0000 <= i < 0x8000_0000_0000_0000 then Some(i) else None
  }

  function ParseBool(s: string): Option<bool> {
    if s in ["1", "t", "T", "TRUE", "true", "True"] then Some(true)
    else if s in ["0", "f", "F", "FALSE", "false", "False"] then Some(false)
    else None
  }

  /** Exactly twelve words are booleans, and the first letter tells which. */
  lemma ParseBoolIs(s: string)
    ensures ParseBool(s).Some? <==>
              s in ["1", "0", "t", "T", "f", "F", "true", "True", "TRUE", "false", "False", "FALSE"]
    ensures ParseBool(s).Some? ==> (ParseBool(s).value <==> s[0] in ['1', 't', 'T'])
  {
    var words := ["1", "t", "T", "TRUE", "true", "True"];
    assert forall i :: 0 <= i < |words| ==> words[i] != "" && words[i][0] in ['1', 't', 'T'];
    var others := ["0", "f", "F", "FALSE", "false", "False"];
    assert forall i :: 0 <= i < |others| ==> others[i] != "" && others[i][0] in ['0', 'f', 'F'];
  }

  /** valueByType. A text that a value of another family was printed as does not come up here:
      it would have been stored as "unsupported". */
  function ValueByType(t: Text, k: KeyType): Option<Value> {
    match k
    case BooleanType => if t.Chars? && ParseBool(t.s).Some? then Some(Bool(ParseBool(t.s).value)) else None
    case IntType => var i := WholeOf(t); if i.Some? then Some(Int(i.value)) else None
    case LongType => var i := WholeOf(t); if i.Some? then Some(Long(i.value)) else None
    case FloatType => if t.Decimal? then Some(Float(F32(t.r))) else None
    case DoubleType => if t.Decimal? then Some(Double(t.r)) else None
    case StringType => if t.Chars? then Some(Str(t.s)) else None
  }

  function WholeOf(t: Text): Option<int> {
    match t
    case Whole(i) => InRange(i)
    case Chars(s) => ParseDecimal(s)
    case Decimal(_) => None
  }

  // The text of a data element, or the default of its key when it has none.
  function TextOf(x: Data, k: Key): Option<Text> {
    if x.value == Chars("") && k.keyType != StringType then
      if k.defaultValue != Chars("") then Some(k.defaultValue) else None
    else Some(x.value)
  }

  /** One data element: the name of its key, and its value; None is an error. */
  function ReadOne(keys: seq<Key>, x: Data): Option<(string, Value)> {
    var k := FindKeyById(keys, x.key);
    if k.None? then None
    else
      var t := TextOf(x, k.value);
      if t.None? || ValueByType(t.value, k.value.keyType).None? then None
      else Some((k.value.name, ValueByType(t.value, k.value.keyType).value))
  }

  function ReadData(keys: seq<Key>, data: seq<Data>): Option<map<string, Value>> {
    if data == [] then Some(map[])
    else
      var m := ReadData(keys, data[..|data| - 1]);
      var x := ReadOne(keys, data[|data| - 1]);
      if m.None? || x.None? then None else Some(m.value[x.value.0 := x.value.1])
  }

  predicate HasDefault(k: Key, target: Target) {
    (k.target == target || k.target == ForAll) && !(k.defaultValue == Chars("") && k.keyType != StringType)
  }

  // The defaults of the keys for this kind of element, for the names that have no value yet.
  function FillDefaults(ks: seq<Key>, target: Target, m: map<string, Value>): Option<map<string, Value>>
    decreases |ks|
  {
    if ks == [] then Some(m)
    else if !HasDefault(ks[0], target) || ks[0].name in m then FillDefaults(ks[1..], target, m)
    else
      var v := ValueByType(ks[0].defaultValue, ks[0].keyType);
      if v.None? then None else FillDefaults(ks[1..], target, m[ks[0].name := v.value])
  }

  function AttributesFor(keys: seq<Key>, data: seq<Data>, target: Target): Option<map<string, Value>> {
    var m := ReadData(keys, data);
    if m.None? then None else FillDefaults(keys, target, m.value)
  }

  // ---------------------------------------------------------------- what comes back

  /** What an attribute that was stored under key k reads back as, if it can be read. Each
      number takes the kind of its key. Of a value the key does not take only the word
      "unsupported" was stored, which no boolean or number is. */
  function BackAs(v: Value, k: Key): Option<Value> {
    if v == Nil then ValueByType(k.defaultValue, k.keyType)
    else
      match k.keyType
      case BooleanType => if v.Bool? then Some(v) else None
      case IntType => if (v.Int? || v.Long?) && InRange(v.i).Some? then Some(Int(v.i)) else None
      case LongType => if (v.Int? || v.Long?) && InRange(v.i).Some? then Some(Long(v.i)) else None
      case FloatType => if v.Float? || v.Double? then Some(Float(F32(v.r))) else None
      case DoubleType => if v.Float? || v.Double? then Some(Double(v.r)) else None
      case StringType => Some(if v.Str? then v else Str("unsupported"))
  }

  /** A value of the very type of its key comes back as itself: an integer that fits in 64 bits,
      a short float that is one. */
  lemma SameTypeReadsBack(v: Value, k: Key)
    requires TypeOf(v) == Some(k.keyType)
    requires v.Int? || v.Long? ==> -0x8000_0000_0000_0000 <= v.i < 0x8000_0000_0000_0000
    requires v.Float? ==> F32(v.r) == v.r
    ensures BackAs(v, k) == ValueByType(Shown(v), k.keyType) == Some(v)
  {
  }

  lemma NoNumber()
    ensures ParseDecimal("unsupported") == None && ParseBool("unsupported") == None
  {
    var s := "unsupported";
    assert s[0] == 'u';
    SpoiltRow(s, 0, 10);
  }

  // The text a stored attribute has, read as its key says.
  lemma StoredText(v: Value, k: Key, x: Data)
    requires DataWithKey(v, k) == Ok(x)
    ensures x.key == k.id && TextOf(x, k) == Some(x.value)
    ensures ValueByType(x.value, k.keyType) == BackAs(v, k)
  {
    hide ParseDecimal, F32;
    NoNumber();
    assert "unsupported" != "";
    if v.Bool? && k.keyType == BooleanType {
      assert x.value.s == "true" || x.value.s == "false";
    }
  }

  predicate DefaultsRead(keys: seq<Key>) {
    forall i :: 0 <= i < |keys| && keys[i].defaultValue != Chars("") ==>
      ValueByType(keys[i].defaultValue, keys[i].keyType).Some?
  }

  lemma {:induction false} FindByIdIs(keys: seq<Key>, k: Key)
    requires KeysOk(keys) && k in keys
    ensures FindKeyById(keys, k.id) == Some(k)
  {
    var n := |keys| - 1;
    if keys[n] != k {
      DifferentIds(keys, k, keys[n]);
      assert keys == keys[..n] + [keys[n]];
      hide KeyIdentifier;
      FindByIdIs(keys[..n], k);
    }
  }

  // What the attribute of a name reads back as.
  function BackOf(keys: seq<Key>, a: (string, Value), target: Target): Option<Value> {
    var k := GetKey(keys, a.0, target);
    if k.Some? then BackAs(a.1, k.value) else None
  }

  predicate AllReadBack(keys: seq<Key>, attributes: Attributes, target: Target) {
    forall i :: 0 <= i < |attributes| ==> BackOf(keys, attributes[i], target).Some?
  }

  lemma OneReadsBack(keys: seq<Key>, a: (string, Value), target: Target, x: Data)
    requires KeysOk(keys)
    requires var k := GetKey(keys, a.0, target); k.Some? && DataWithKey(a.1, k.value) == Ok(x)
    ensures ReadOne(keys, x)
      == if BackOf(keys, a, target).Some? then Some((a.0, BackOf(keys, a, target).value)) else None
  {
    hide KeysOk, GetKey, DataWithKey, BackAs, ValueByType, TextOf;
    var k := GetKey(keys, a.0, target).value;
    GetKeyIs(keys, a.0, target);
    FindByIdIs(keys, k);
    StoredText(a.1, k, x);
  }

  /** m holds the attributes as they read back, and nothing else. */
  ghost predicate HoldsExactly(keys: seq<Key>, attributes: Attributes, target: Target, m: map<string, Value>) {
    && (forall i :: 0 <= i < |attributes| ==>
          attributes[i].0 in m && BackOf(keys, attributes[i], target) == Some(m[attributes[i].0]))
    && (forall name :: name in m ==> exists i :: 0 <= i < |attributes| && attributes[i].0 == name)
  }

  lemma HoldsOneMore(keys: seq<Key>, attributes: Attributes, target: Target, m: map<string, Value>)
    requires attributes != [] && DistinctNames(attributes)
    requires HoldsExactly(keys, attributes[..|attributes| - 1], target, m)
    requires BackOf(keys, attributes[|attributes| - 1], target).Some?
    ensures var a := attributes[|attributes| - 1];
            HoldsExactly(keys, attributes, target, m[a.0 := BackOf(keys, a, target).value])
  {
    hide BackOf;
    var n := |attributes| - 1;
    var before, a := attributes[..n], attributes[n];
    var m' := m[a.0 := BackOf(keys, a, target).value];
    forall i | 0 <= i < |attributes|
      ensures attributes[i].0 in m' && BackOf(keys, attributes[i], target) == Some(m'[attributes[i].0])
    {
      if i < n { assert before[i] == attributes[i]; }
    }
    forall name | name in m' ensures exists i :: 0 <= i < |attributes| && attributes[i].0 == name {
      if name == a.0 {
        assert attributes[n].0 == name;
      } else {
        var i :| 0 <= i < n && before[i].0 == name;
        assert attributes[i].0 == name;
      }
    }
  }

  lemma LastReadsBack(keys: seq<Key>, attributes: Attributes, target: Target)
    requires attributes != []
    ensures var n := |attributes| - 1;
            AllReadBack(keys, attributes, target)
            <==> AllReadBack(keys, attributes[..n], target) && BackOf(keys, attributes[n], target).Some?
  {
    hide BackOf;
    var n := |attributes| - 1;
    assert forall i :: 0 <= i < n ==> attributes[..n][i] == attributes[i];
  }

  lemma NothingHeld(keys: seq<Key>, target: Target)
    ensures HoldsExactly(keys, [], target, map[]) && AllReadBack(keys, [], target)
  {
  }

  lemma {:induction false} DataReadsBack(keys: seq<Key>, attributes: Attributes, target: Target, data: seq<Data>)
    requires KeysOk(keys) && DistinctNames(attributes) && Created(keys, attributes, target, data)
    ensures ReadData(keys, data).Some? <==> AllReadBack(keys, attributes, target)
    ensures ReadData(keys, data).Some? ==> HoldsExactly(keys, attributes, target, ReadData(keys, data).value)
    decreases |data|
  {
    hide KeysOk, DataWithKey, GetKey, BackOf, ReadOne, HoldsExactly, AllReadBack;
    if data == [] {
      NothingHeld(keys, target);
    } else {
      var n := |data| - 1;
      OneReadsBack(keys, attributes[n], target, data[n]);
      DataReadsBack(keys, attributes[..n], target, data[..n]);
      LastReadsBack(keys, attributes, target);
      if ReadData(keys, data).Some? {
        HoldsOneMore(keys, attributes, target, ReadData(keys, data[..n]).value);
      }
    }
  }

  // ---------------------------------------------------------------- defaults

  /** The default at place i is needed: its name has no value, and no earlier default gives it one. */
  predicate Needed(ks: seq<Key>, i: nat, target: Target, names: set<string>)
    requires i < |ks|
  {
    && HasDefault(ks[i], target) && ks[i].name !in names
    && forall j :: 0 <= j < i && HasDefault(ks[j], target) ==> ks[j].name != ks[i].name
  }

  lemma NeededLater(ks: seq<Key>, i: nat, target: Target, names: set<string>)
    requires 0 < i < |ks|
    ensures var names' := if HasDefault(ks[0], target) then names + {ks[0].name} else names;
            Needed(ks, i, target, names) <==> Needed(ks[1..], i - 1, target, names')
  {
    hide HasDefault;
    var rest := ks[1..];
    assert forall j :: 0 <= j < |rest| ==> rest[j] == ks[j + 1];
    if HasDefault(ks[0], target) && ks[0].name == ks[i].name {
      assert !Needed(ks, i, target, names);
    } else {
      var names' := if HasDefault(ks[0], target) then names + {ks[0].name} else names;
      if Needed(rest, i - 1, target, names') {
        forall j | 0 <= j < i && HasDefault(ks[j], target) ensures ks[j].name != ks[i].name {
          if j > 0 { assert rest[j - 1] == ks[j]; }
        }
      }
    }
  }

  function DefaultOf(k: Key): Option<Value> { ValueByType(k.defaultValue, k.keyType) }

  predicate NeededDefaultsRead(ks: seq<Key>, target: Target, names: set<string>) {
    forall i :: 0 <= i < |ks| && Needed(ks, i, target, names) ==> DefaultOf(ks[i]).Some?
  }

  function NamesWithDefault(ks: seq<Key>, target: Target): set<string> {
    set k | k in ks && HasDefault(k, target) :: k.name
  }

  ghost predicate FilledWith(ks: seq<Key>, target: Target, m: map<string, Value>, r: map<string, Value>) {
    && r.Keys == m.Keys + NamesWithDefault(ks, target)
    && (forall name :: name in m ==> r[name] == m[name])
    && (forall i :: 0 <= i < |ks| && Needed(ks, i, target, m.Keys) ==>
          ks[i].name in r && Some(r[ks[i].name]) == DefaultOf(ks[i]))
  }

  /** Filling in defaults succeeds exactly when every needed one can be read, and then gives
      exactly the missing names their first default. */
  lemma {:induction false} DefaultsFill(ks: seq<Key>, target: Target, m: map<string, Value>)
    ensures FillDefaults(ks, target, m).Some? <==> NeededDefaultsRead(ks, target, m.Keys)
    ensures FillDefaults(ks, target, m).Some? ==> FilledWith(ks, target, m, FillDefaults(ks, target, m).value)
    decreases |ks|
  {
    hide ValueByType, HasDefault, Needed;
    if ks != [] {
      var k, rest := ks[0], ks[1..];
      NamesWithOneMore(k, rest, target);
      assert ks == [k] + rest;
      FirstNeeded(ks, target, m.Keys);
      var m' := if !HasDefault(k, target) || k.name in m then m
                else if DefaultOf(k).Some? then m[k.name := DefaultOf(k).value] else m;
      var names' := if HasDefault(k, target) then m.Keys + {k.name} else m.Keys;
      forall i: nat | 0 < i < |ks| ensures Needed(ks, i, target, m.Keys) <==> Needed(rest, i - 1, target, names') {
        NeededLater(ks, i, target, m.Keys);
      }
      if Needed(ks, 0, target, m.Keys) && DefaultOf(k).None? {
        assert FillDefaults(ks, target, m).None?;
      } else {
        assert m'.Keys == names' && FillDefaults(ks, target, m) == FillDefaults(rest, target, m');
        DefaultsFill(rest, target, m');
        ReadsLater(ks, target, m.Keys, names');
        if FillDefaults(rest, target, m').Some? {
          FilledLater(ks, target, m, m', FillDefaults(rest, target, m').value);
        }
      }
    }
  }

  lemma FirstNeeded(ks: seq<Key>, target: Target, names: set<string>)
    requires ks != []
    ensures Needed(ks, 0, target, names) <==> HasDefault(ks[0], target) && ks[0].name !in names
  {
    hide HasDefault;
  }

  lemma NamesWithOneMore(k: Key, rest: seq<Key>, target: Target)
    ensures NamesWithDefault([k] + rest, target)
      == NamesWithDefault(rest, target) + (if HasDefault(k, target) then {k.name} else {})
  {
    hide HasDefault;
    var ks := [k] + rest;
    assert forall x :: x in ks <==> x == k || x in rest;
  }

  lemma ReadsLater(ks: seq<Key>, target: Target, names: set<string>, names': set<string>)
    requires ks != [] && (Needed(ks, 0, target, names) ==> DefaultOf(ks[0]).Some?)
    requires forall i: nat :: 0 < i < |ks| ==>
      (Needed(ks, i, target, names) <==> Needed(ks[1..], i - 1, target, names'))
    ensures NeededDefaultsRead(ks, target, names) <==> NeededDefaultsRead(ks[1..], target, names')
  {
    hide Needed, DefaultOf;
    var rest := ks[1..];
    if NeededDefaultsRead(ks, target, names) {
      forall i | 0 <= i < |rest| && Needed(rest, i, target, names') ensures DefaultOf(rest[i]).Some? {
        assert Needed(ks, i + 1, target, names) && rest[i] == ks[i + 1];
      }
    }
    if NeededDefaultsRead(rest, target, names') {
      forall i | 0 <= i < |ks| && Needed(ks, i, target, names) ensures DefaultOf(ks[i]).Some? {
        if i > 0 { assert Needed(rest, i - 1, target, names') && rest[i - 1] == ks[i]; }
      }
    }
  }

  lemma FilledLater(ks: seq<Key>, target: Target, m: map<string, Value>, m': map<string, Value>,
      r: map<string, Value>)
    requires ks != [] && FilledWith(ks[1..], target, m', r)
    requires m'.Keys == m.Keys + (if HasDefault(ks[0], target) then {ks[0].name} else {})
    requires forall name :: name in m ==> m'[name] == m[name]
    requires Needed(ks, 0, target, m.Keys) ==> ks[0].name in m' && Some(m'[ks[0].name]) == DefaultOf(ks[0])
    requires forall i: nat :: 0 < i < |ks| ==>
      (Needed(ks, i, target, m.Keys) <==> Needed(ks[1..], i - 1, target, m'.Keys))
    ensures FilledWith(ks, target, m, r)
  {
    hide Needed, DefaultOf, HasDefault, NamesWithDefault;
    var rest := ks[1..];
    assert ks == [ks[0]] + rest;
    NamesWithOneMore(ks[0], rest, target);
    forall i | 0 <= i < |ks| && Needed(ks, i, target, m.Keys)
      ensures ks[i].name in r && Some(r[ks[i].name]) == DefaultOf(ks[i])
    {
      if i > 0 { assert Needed(rest, i - 1, target, m'.Keys) && rest[i - 1] == ks[i]; }
    }
  }

  // ---------------------------------------------------------------- an element

  function NamesOf(attributes: Attributes): set<string> { set a | a in attributes :: a.0 }

  /** The attributes an element was created with can be read exactly when each of them can,
      and each default that is needed. Then they read back under their names, and beside them
      there is exactly the first default of every other name that has one for this kind of
      element. */
  lemma AttributesReadBack(keys: seq<Key>, attributes: Attributes, target: Target, data: seq<Data>)
    requires KeysOk(keys) && DistinctNames(attributes) && Created(keys, attributes, target, data)
    ensures AttributesFor(keys, data, target).Some?
      <==> AllReadBack(keys, attributes, target) && NeededDefaultsRead(keys, target, NamesOf(attributes))
    ensures AttributesFor(keys, data, target).Some? ==>
              var m := AttributesFor(keys, data, target).value;
              && m.Keys == NamesOf(attributes) + NamesWithDefault(keys, target)
              && (forall i :: 0 <= i < |attributes| ==>
                    Some(m[attributes[i].0]) == BackOf(keys, attributes[i], target))
              && (forall i :: 0 <= i < |keys| && Needed(keys, i, target, NamesOf(attributes)) ==>
                    Some(m[keys[i].name]) == DefaultOf(keys[i]))
  {
    hide KeysOk, GetKey, BackOf, DefaultOf, Created, Needed, NamesWithDefault, AllReadBack, NeededDefaultsRead,
        ReadData, FillDefaults, DistinctNames;
    DataReadsBack(keys, attributes, target, data);
    if ReadData(keys, data).Some? {
      var m := ReadData(keys, data).value;
      NamesHeld(keys, attributes, target, m);
      DefaultsFill(keys, target, m);
    }
  }

  lemma NamesHeld(keys: seq<Key>, attributes: Attributes, target: Target, m: map<string, Value>)
    requires HoldsExactly(keys, attributes, target, m)
    ensures m.Keys == NamesOf(attributes)
  {
    hide BackOf;
    forall name | name in NamesOf(attributes) ensures name in m {
      var i :| 0 <= i < |attributes| && attributes[i].0 == name;
    }
  }

  /** So it is in a document whose defaults can all be read. */
  lemma DefaultsAreNoTrouble(keys: seq<Key>, target: Target, names: set<string>)
    requires DefaultsRead(keys)
    ensures NeededDefaultsRead(keys, target, names)
  {
  }

  /** Told without a word of defaults: the names that are read are those of the attributes and
      those of the keys for this kind of element or for all whose default is not empty or whose
      type is string. */
  lemma NamesThatAreRead(keys: seq<Key>, attributes: Attributes, target: Target, data: seq<Data>, name: string)
    requires KeysOk(keys) && DistinctNames(attributes) && Created(keys, attributes, target, data)
    requires AttributesFor(keys, data, target).Some?
    ensures name in AttributesFor(keys, data, target).value <==>
              || (exists i :: 0 <= i < |attributes| && attributes[i].0 == name)
              || (exists k :: k in keys && k.name == name && (k.target == target || k.target == ForAll)
                              && (k.defaultValue != Chars("") || k.keyType == StringType))
  {
    hide KeysOk, GetKey, BackOf, DefaultOf, Created, Needed, AllReadBack, NeededDefaultsRead, AttributesFor,
        DistinctNames;
    AttributesReadBack(keys, attributes, target, data);
    assert name in NamesWithDefault(keys, target) <==>
             exists k :: k in keys && k.name == name && (k.target == target || k.target == ForAll)
                         && (k.defaultValue != Chars("") || k.keyType == StringType);
    assert name in NamesOf(attributes) <==> exists a :: a in attributes && a.0 == name;
    if a :| a in attributes && a.0 == name {
      var i :| 0 <= i < |attributes| && attributes[i] == a;
    }
  }

  /** A data element without a text, as a document may hold it: under a string key it is the empty
      string, under any other it takes the default of its key, and fails when there is none. */
  lemma EmptyTextIs(keys: seq<Key>, k: Key)
    requires KeysOk(keys) && k in keys
    ensures ReadOne(keys, Data(k.id, Chars(""))) ==
              if k.keyType == StringType then Some((k.name, Str("")))
              else if k.defaultValue != Chars("") && DefaultOf(k).Some? then Some((k.name, DefaultOf(k).value))
              else None
  {
    hide KeysOk, ParseDecimal, F32;
    FindByIdIs(keys, k);
  }

  /** The default a key was registered with reads as a value stored under it would. */
  lemma RegisteredDefault(d: Doc, target: Target, name: string, description: string, kind: KeyType, default: Value)
    requires default != Nil && RegisterKey(d, target, name, description, Some(kind), default).Ok?
    ensures var k := RegisterKey(d, target, name, description, Some(kind), default).value.1;
            DefaultOf(k) == BackAs(default, k)
  {
    hide ParseDecimal, F32, FirstUnused, Name, G.GetKey;
    var k := RegisterKey(d, target, name, description, Some(kind), default).value.1;
    if default.Bool? {
      assert k.defaultValue.s == "true" || k.defaultValue.s == "false";
    }
  }

  /** A whole number in a text reads back with either sign, if it fits in 64 bits. */
  lemma DecimalReadsBack(n: nat)
    ensures ParseDecimal(Print(n, 10)) == ParseDecimal("+" + Print(n, 10))
         == if n < 0x8000_0000_0000_0000 then Some(n) else None
    ensures ParseDecimal("-" + Print(n, 10)) == if n <= 0x8000_0000_0000_0000 then Some(-(n as int)) else None
    ensures n < 0x8000_0000_0000_0000 ==>
              && ValueByType(Chars(Print(n, 10)), IntType) == Some(Int(n))
              && ValueByType(Chars(Print(n, 10)), LongType) == Some(Long(n))
  {
    hide Print, ParseDigits, F32;
    PrintParses(n, 10);
    NoSign(n);
    var s := Print(n, 10);
    assert ("+" + s)[1..] == s && ("-" + s)[1..] == s;
  }

  lemma NoSign(n: nat)
    ensures Print(n, 10)[0] != '-' && Print(n, 10)[0] != '+'
  {
    DigitsLook(n, 10);
  }
}
