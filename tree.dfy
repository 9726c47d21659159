/** The auto-vivifying tree (`jsontree`) and its name-mapped variants
    (`mapped_jsontree_class`, `mapped_jsontree`): an insertion-ordered
    dictionary whose missing keys spring into existence as empty trees of the
    same class, and whose attributes are its keys. */
module Tree {
  import opened Wrappers
  import opened IsoDateTime

  /** A dictionary key. Attribute names and JSON object keys are strings; a
      name mapping may also produce integers (the `dict(one=1, two=2)`
      mapping of the library's documentation). */
  datatype Key = StrKey(s: string) | IntKey(i: int)

  /** An insertion-ordered dictionary, as Python's dict: the key sequence
      records where each key first went in, the map holds the current values. */
  datatype Dict<V> = Dict(keys: seq<Key>, entries: map<Key, V>) {

    /** Each key listed once, and exactly the keys that have a value. */
    predicate Valid() {
      && (forall i, j :: 0 <= i < j < |keys| ==> keys[i] != keys[j])
      && (forall k :: k in entries ==> k in keys)
      && (forall i :: 0 <= i < |keys| ==> keys[i] in entries)
    }

    /** `d[k] = v`: a new key goes to the end, an existing one keeps its place;
        no other key or value changes. */
    function Put(k: Key, v: V): (r: Dict<V>)
      ensures Valid() ==> r.Valid()
    {
      Dict(if k in entries then keys else keys + [k], entries[k := v])
    }

    /** `list(d.items())`: the pairs in key order. */
    function Items(): (items: seq<(Key, V)>)
      requires Valid()
      ensures |items| == |keys|
      ensures forall i :: 0 <= i < |items| ==> items[i].0 == keys[i] && items[i].1 == entries[keys[i]]
    {
      ItemsOf(keys, entries)
    }
  }

  /** The pairs of the given keys with their values, in the keys' order. */
  function ItemsOf<V>(keys: seq<Key>, entries: map<Key, V>): (items: seq<(Key, V)>)
    requires forall i :: 0 <= i < |keys| ==> keys[i] in entries
    ensures |items| == |keys|
    ensures forall i :: 0 <= i < |items| ==> items[i].0 == keys[i] && items[i].1 == entries[keys[i]]
  {
    if keys == [] then []
    else
      var init := keys[..|keys| - 1];
      assert forall i :: 0 <= i < |init| ==> init[i] == keys[i];
      ItemsOf(init, entries) + [(keys[|keys| - 1], entries[keys[|keys| - 1]])]
  }

  /** Putting a key in gives it the value, and leaves every other key, value
      and position as it was. */
  lemma PutFacts<V>(d: Dict<V>, k: Key, v: V)
    ensures k in d.Put(k, v).entries && d.Put(k, v).entries[k] == v
    ensures |d.Put(k, v).keys| == if k in d.entries then |d.keys| else |d.keys| + 1
    ensures forall j :: j != k ==> (j in d.Put(k, v).entries <==> j in d.entries)
    ensures forall j :: j != k && j in d.entries ==> d.Put(k, v).entries[j] == d.entries[j]
    ensures d.Put(k, v).keys[..|d.keys|] == d.keys
  {
  }

  /** `dict(pairs)`: the pairs put in one after the other, so a repeated key
      keeps the position of its first pair and the value of its last. */
  function FromPairs<V>(pairs: seq<(Key, V)>): (d: Dict<V>)
    ensures d.Valid()
    ensures forall i :: 0 <= i < |pairs| ==> pairs[i].0 in d.entries
  {
    if pairs == [] then Dict([], map[])
    else
      var last := pairs[|pairs| - 1];
      var d := FromPairs(pairs[..|pairs| - 1]);
      assert forall i :: 0 <= i < |pairs| - 1 ==> pairs[..|pairs| - 1][i] == pairs[i];
      d.Put(last.0, last.1)
  }

  /** The keys the pairs mention. */
  function PairKeys<V>(pairs: seq<(Key, V)>): set<Key> {
    set i | 0 <= i < |pairs| :: pairs[i].0
  }

  /** `dict(pairs)` has a value for exactly the keys the pairs mention. */
  lemma {:induction false} FromPairsKeys<V>(pairs: seq<(Key, V)>)
    ensures FromPairs(pairs).entries.Keys == PairKeys(pairs)
  {
    if pairs != [] {
      var init := pairs[..|pairs| - 1];
      FromPairsKeys(init);
      forall k | k in PairKeys(pairs) ensures k in FromPairs(pairs).entries {
        var i :| 0 <= i < |pairs| && pairs[i].0 == k;
      }
      forall k | k in PairKeys(init) ensures k in PairKeys(pairs) {
        var i :| 0 <= i < |init| && init[i].0 == k;
        assert pairs[i] == init[i];
      }
    }
  }

  predicate DistinctKeys<V>(pairs: seq<(Key, V)>) {
    forall i, j :: 0 <= i < j < |pairs| ==> pairs[i].0 != pairs[j].0
  }

  /** A key's value comes from its last pair. */
  lemma {:induction false} FromPairsLastWins<V>(pairs: seq<(Key, V)>, i: nat)
    requires i < |pairs|
    requires forall j :: i < j < |pairs| ==> pairs[j].0 != pairs[i].0
    ensures FromPairs(pairs).entries[pairs[i].0] == pairs[i].1
  {
    if i < |pairs| - 1 {
      var init := pairs[..|pairs| - 1];
      assert init[i] == pairs[i];
      assert forall j :: i < j < |init| ==> init[j] == pairs[j];
      FromPairsLastWins(init, i);
    }
  }

  /** Later pairs only add keys after the ones already there. */
  lemma {:induction false} FromPairsGrows<V>(pairs: seq<(Key, V)>, n: nat)
    requires n <= |pairs|
    ensures |FromPairs(pairs[..n]).keys| <= |FromPairs(pairs).keys|
    ensures FromPairs(pairs).keys[..|FromPairs(pairs[..n]).keys|] == FromPairs(pairs[..n]).keys
  {
    if n < |pairs| {
      var init := pairs[..|pairs| - 1];
      assert init[..n] == pairs[..n];
      FromPairsGrows(init, n);
      var e := FromPairs(init).keys;
      assert FromPairs(pairs).keys[..|e|] == e;
    } else {
      assert pairs[..n] == pairs;
    }
  }

  /** A key takes its place when its first pair goes in: right after the keys
      of the pairs before it. */
  lemma FromPairsFirstPosition<V>(pairs: seq<(Key, V)>, i: nat)
    requires i < |pairs|
    requires forall j :: 0 <= j < i ==> pairs[j].0 != pairs[i].0
    ensures var before := FromPairs(pairs[..i]).keys;
      |before| < |FromPairs(pairs).keys| && FromPairs(pairs).keys[..|before| + 1] == before + [pairs[i].0]
  {
    FromPairsNewKey(pairs, i);
    FromPairsGrows(pairs, i + 1);
  }

  lemma FromPairsNewKey<V>(pairs: seq<(Key, V)>, i: nat)
    requires i < |pairs|
    requires forall j :: 0 <= j < i ==> pairs[j].0 != pairs[i].0
    ensures FromPairs(pairs[..i + 1]).keys == FromPairs(pairs[..i]).keys + [pairs[i].0]
  {
    var before := FromPairs(pairs[..i]);
    assert pairs[..i + 1][..i] == pairs[..i];
    assert pairs[..i + 1][i] == pairs[i];
    assert forall j :: 0 <= j < i ==> pairs[..i][j] == pairs[j];
    FromPairsKeys(pairs[..i]);
    assert pairs[i].0 !in before.entries;
  }

  /** With no repeated key, `dict(pairs)` holds exactly the pairs, in order. */
  lemma FromDistinctPairs<V>(pairs: seq<(Key, V)>)
    requires DistinctKeys(pairs)
    ensures FromPairs(pairs).Items() == pairs
  {
    DistinctPairsKeys(pairs);
    DistinctItems(pairs, FromPairs(pairs));
  }

  /** With no repeated key, `dict(pairs)` lists the pairs' keys in order. */
  lemma {:induction false} DistinctPairsKeys<V>(pairs: seq<(Key, V)>)
    requires DistinctKeys(pairs)
    ensures |FromPairs(pairs).keys| == |pairs|
    ensures forall i :: 0 <= i < |pairs| ==> FromPairs(pairs).keys[i] == pairs[i].0
  {
    if pairs != [] {
      var init := pairs[..|pairs| - 1];
      var last := pairs[|pairs| - 1];
      assert DistinctKeys(init) by {
        forall a, b | 0 <= a < b < |init| ensures init[a].0 != init[b].0 {
          assert init[a] == pairs[a] && init[b] == pairs[b];
        }
      }
      DistinctPairsKeys(init);
      assert forall i :: 0 <= i < |init| ==> init[i].0 != last.0 by {
        forall i | 0 <= i < |init| ensures init[i].0 != last.0 {
          assert init[i] == pairs[i];
        }
      }
      LastNewKey(pairs);
    }
  }

  /** A last pair whose key is new lands at the end of the key list. */
  lemma LastNewKey<V>(pairs: seq<(Key, V)>)
    requires pairs != []
    requires var init := pairs[..|pairs| - 1];
      && |FromPairs(init).keys| == |init|
      && forall i :: 0 <= i < |init| ==> FromPairs(init).keys[i] == init[i].0 && init[i].0 != pairs[|pairs| - 1].0
    ensures |FromPairs(pairs).keys| == |pairs|
    ensures forall i :: 0 <= i < |pairs| ==> FromPairs(pairs).keys[i] == pairs[i].0
  {
    var init := pairs[..|pairs| - 1];
    var last := pairs[|pairs| - 1];
    var e := FromPairs(init);
    assert forall i :: 0 <= i < |init| ==> e.keys[i] == pairs[i].0 && pairs[i].0 != last.0 by {
      forall i | 0 <= i < |init| ensures e.keys[i] == pairs[i].0 && pairs[i].0 != last.0 {
        assert init[i] == pairs[i];
      }
    }
    PutLastKey(e, pairs);
    assert FromPairs(pairs) == e.Put(last.0, last.1);
  }

  /** Putting in the last pair, with a key the dictionary does not hold, after
      keys listed in the order of the earlier pairs, lists all the pairs' keys
      in order. */
  lemma PutLastKey<V>(e: Dict<V>, pairs: seq<(Key, V)>)
    requires e.Valid() && pairs != [] && |e.keys| == |pairs| - 1
    requires forall i :: 0 <= i < |pairs| - 1 ==> e.keys[i] == pairs[i].0 && pairs[i].0 != pairs[|pairs| - 1].0
    ensures var d := e.Put(pairs[|pairs| - 1].0, pairs[|pairs| - 1].1);
      |d.keys| == |pairs| && forall i :: 0 <= i < |pairs| ==> d.keys[i] == pairs[i].0
  {
    var k := pairs[|pairs| - 1].0;
    assert k !in e.keys;
  }

  lemma DistinctItems<V>(pairs: seq<(Key, V)>, d: Dict<V>)
    requires DistinctKeys(pairs) && d == FromPairs(pairs) && |d.keys| == |pairs|
    requires forall i :: 0 <= i < |pairs| ==> d.keys[i] == pairs[i].0
    ensures d.Items() == pairs
  {
    forall i | 0 <= i < |pairs|
      ensures d.Items()[i] == pairs[i]
    {
      FromPairsLastWins(pairs, i);
    }
  }

  lemma SplitLast<T>(s: seq<T>)
    requires s != []
    ensures s == s[..|s| - 1] + [s[|s| - 1]]
  {
  }

  /** `dict(pairs + [p])` is `dict(pairs)` with p put in. */
  lemma FromPairsSnoc<V>(pairs: seq<(Key, V)>, p: (Key, V))
    ensures FromPairs(pairs + [p]) == FromPairs(pairs).Put(p.0, p.1)
  {
    assert (pairs + [p])[..|pairs|] == pairs;
  }

  /** Putting in the items of distinct keys one by one lists those keys in
      order. */
  lemma {:induction false} FromItemsKeys<V>(keys: seq<Key>, entries: map<Key, V>)
    requires forall i, j :: 0 <= i < j < |keys| ==> keys[i] != keys[j]
    requires forall i :: 0 <= i < |keys| ==> keys[i] in entries
    ensures FromPairs(ItemsOf(keys, entries)).keys == keys
  {
    if keys != [] {
      var init := keys[..|keys| - 1];
      var last := keys[|keys| - 1];
      assert forall i :: 0 <= i < |init| ==> init[i] == keys[i];
      FromItemsKeys(init, entries);
      FromPairsSnoc(ItemsOf(init, entries), (last, entries[last]));
      var e := FromPairs(ItemsOf(init, entries));
      assert last !in e.keys;
      SplitLast(keys);
    }
  }

  /** ... each with its value. */
  lemma {:induction false} FromItemsEntries<V>(keys: seq<Key>, entries: map<Key, V>)
    requires forall i :: 0 <= i < |keys| ==> keys[i] in entries
    ensures forall k :: k in FromPairs(ItemsOf(keys, entries)).entries ==>
              k in entries && FromPairs(ItemsOf(keys, entries)).entries[k] == entries[k]
  {
    if keys != [] {
      var init := keys[..|keys| - 1];
      var last := keys[|keys| - 1];
      assert forall i :: 0 <= i < |init| ==> init[i] == keys[i];
      FromItemsEntries(init, entries);
      FromPairsSnoc(ItemsOf(init, entries), (last, entries[last]));
    }
  }

  /** `dict(d.items()) == d`: a dictionary is rebuilt exactly from its items. */
  lemma ItemsRoundTrip<V>(d: Dict<V>)
    requires d.Valid()
    ensures FromPairs(d.Items()) == d
  {
    FromItemsKeys(d.keys, d.entries);
    FromItemsEntries(d.keys, d.entries);
    var r := FromPairs(d.Items());
    SameEntries(r, d);
  }

  /** Two valid dictionaries with the same keys that agree on every value of
      the first are equal. */
  lemma SameEntries<V>(r: Dict<V>, d: Dict<V>)
    requires r.Valid() && d.Valid() && r.keys == d.keys
    requires forall k :: k in r.entries ==> k in d.entries && r.entries[k] == d.entries[k]
    ensures r == d
  {
    forall k | k in d.entries
      ensures k in r.entries
    {
      assert k in d.keys;
    }
    assert r.entries == d.entries;
  }

  /** How a class turns attribute names into keys: the plain tree uses the
      name itself; a mapped class uses `mapping.get(name, name)` or a call. */
  datatype Mapper = Identity | Table(table: map<string, Key>) | Fn(f: string -> Key)

  function Translate(m: Mapper, name: string): Key {
    match m
    case Identity => StrKey(name)
    case Table(t) => if name in t then t[name] else StrKey(name)
    case Fn(f) => f(name)
  }

  /** What may be handed to `mapped_jsontree_class`: something callable,
      a Mapping, both, or neither. */
  datatype MappingArg = MappingArg(call: Option<string -> Key>, table: Option<map<string, Key>>)

  /** The test `mapped_jsontree_class` makes before it builds a class: a
      callable is used as it is (even if it is also a Mapping), a Mapping is
      looked up with a default of the name itself, anything else is refused. */
  function MapperOf(arg: MappingArg): (r: Result<Mapper>)
    ensures r.Success? <==> arg.call.Some? || arg.table.Some?
    ensures arg.call.Some? ==> r.Success? && r.value.Fn? && r.value.f == arg.call.value
    ensures arg.call.None? && arg.table.Some? ==> r.Success? && r.value.Table? && r.value.table == arg.table.value
    ensures r.Failure? ==> r.error.TypeError?
  {
    if arg.call.Some? then Success(Fn(arg.call.value))
    else if arg.table.Some? then Success(Table(arg.table.value))
    else Failure(TypeError("Argument mapping is not collable or an instance of collections.Mapping"))
  }

  /** A selection of the names `object.__getattribute__` finds on a
      defaultdict instance (its public methods and some of its dunders), used
      as the intrinsic set of the plain tree class in the examples. */
  const DictAttributes: set<string> :=
    {"clear", "copy", "default_factory", "fromkeys", "get", "items", "keys", "pop",
     "popitem", "setdefault", "update", "values", "__class__", "__contains__",
     "__delattr__", "__delitem__", "__dict__", "__doc__", "__eq__", "__getattribute__",
     "__getitem__", "__init__", "__iter__", "__len__", "__missing__", "__module__",
     "__repr__", "__setattr__", "__setitem__"}

  /** A tree class: `jsontree` itself (Identity) or one returned by
      `mapped_jsontree_class`. Each class object is its own class, so two
      calls of the factory give two different classes. */
  class TreeClass {
    const mapper: Mapper
    /** The names `object.__getattribute__` finds on an instance. */
    const intrinsic: set<string>

    constructor (mapper: Mapper, intrinsic: set<string>)
      ensures this.mapper == mapper && this.intrinsic == intrinsic
    {
      this.mapper := mapper;
      this.intrinsic := intrinsic;
    }

    /** Whether an attribute read of the (mapped) key finds a class member
        rather than an entry. Only string keys are looked up as attributes. */
    predicate IsMember(k: Key) {
      k.StrKey? && k.s in intrinsic
    }
  }

  /** `mapped_jsontree_class(mapping)`: a fresh class, or TypeError before any
      class exists. */
  method MappedJsontreeClass(arg: MappingArg, intrinsic: set<string>) returns (r: Result<TreeClass>)
    ensures r.Success? <==> MapperOf(arg).Success?
    ensures r.Success? ==> fresh(r.value) && r.value.mapper == MapperOf(arg).value && r.value.intrinsic == intrinsic
    ensures r.Failure? ==> r.error == MapperOf(arg).error
  {
    var m := MapperOf(arg);
    if m.Failure? {
      return Failure(m.error);
    }
    var cls := new TreeClass(m.value, intrinsic);
    return Success(cls);
  }

  /** A value stored in a tree: JSON scalars, date-times, lists, and other
      trees (references, as Python stores them). */
  datatype Value =
    | Null
    | Bool(b: bool)
    | Number(n: int)
    | Text(s: string)
    | Stamp(dt: DateTime)
    | List(elems: seq<Value>)
    | Node(node: JsonTree)

  /** What an attribute read gives: a member of the class, or an entry. */
  datatype Attribute = Member(name: string) | Data(value: Value)

  /** An instance of a tree class: a defaultdict whose default factory is its
      own class. */
  class JsonTree {
    const cls: TreeClass
    var keys: seq<Key>
    var items: map<Key, Value>

    function Contents(): Dict<Value>
      reads this
    {
      Dict(keys, items)
    }

    predicate Valid()
      reads this
    {
      Contents().Valid()
    }

    /** `cls(pairs)`: a tree holding `dict(pairs)`. */
    constructor (cls: TreeClass, init: seq<(Key, Value)>)
      ensures this.cls == cls && Valid()
      ensures Contents() == FromPairs(init)
    {
      this.cls := cls;
      var d := FromPairs(init);
      keys := d.keys;
      items := d.entries;
    }

    /** `self[k]`: a present key gives its value and changes nothing; a
        missing key gets a new empty tree of the same class, stored at the end
        and returned. */
    method GetItem(k: Key) returns (v: Value)
      requires Valid()
      modifies this
      ensures Valid()
      ensures k in items && items[k] == v
      ensures k in old(items) ==> v == old(items[k]) && keys == old(keys) && items == old(items)
      ensures k !in old(items) ==>
        && v.Node? && fresh(v.node) && v.node.cls == cls && v.node.Valid()
        && v.node.Contents() == Dict([], map[])
        && Contents() == old(Contents()).Put(k, v)
    {
      if k in items {
        v := items[k];
      } else {
        var child := new JsonTree(cls, []);
        v := Node(child);
        keys := keys + [k];
        items := items[k := v];
      }
    }

    /** `self[k] = v`. */
    method SetItem(k: Key, v: Value)
      requires Valid()
      modifies this
      ensures Valid()
      ensures Contents() == old(Contents()).Put(k, v)
    {
      if k !in items {
        keys := keys + [k];
      }
      items := items[k := v];
    }

    /** `getattr(self, name)`: the name is mapped first; a string key that is a
        class member gives the member, and every other key (a non-string one
        always) is read as `self[key]`, vivifying it when missing. */
    method GetAttr(name: string) returns (r: Attribute)
      requires Valid()
      modifies this
      ensures Valid()
      ensures var k := Translate(cls.mapper, name);
        && (cls.IsMember(k) ==> r == Member(k.s) && keys == old(keys) && items == old(items))
        && (!cls.IsMember(k) ==> r.Data? && k in items && items[k] == r.value)
        && (!cls.IsMember(k) && k in old(items) ==>
              r.value == old(items[k]) && keys == old(keys) && items == old(items))
        && (!cls.IsMember(k) && k !in old(items) ==>
              && r.value.Node? && fresh(r.value.node) && r.value.node.cls == cls
              && r.value.node.Valid() && r.value.node.Contents() == Dict([], map[])
              && Contents() == old(Contents()).Put(k, r.value))
    {
      var k := Translate(cls.mapper, name);
      if cls.IsMember(k) {
        r := Member(k.s);
      } else {
        var v := GetItem(k);
        r := Data(v);
      }
    }

    /** `setattr(self, name, v)`: stored under the mapped key, class member or
        not, and the value is returned. */
    method SetAttr(name: string, v: Value) returns (r: Value)
      requires Valid()
      modifies this
      ensures Valid() && r == v
      ensures Contents() == old(Contents()).Put(Translate(cls.mapper, name), v)
    {
      SetItem(Translate(cls.mapper, name), v);
      r := v;
    }

    /** The stored items, in insertion order: what `dict.items` gives. A read
        of the attribute `items` goes through the class's mapper first (see
        GetAttr), so this is the dict method itself, not the mapped attribute. */
    function Items(): (r: seq<(Key, Value)>)
      reads this
      requires Valid()
      ensures |r| == |keys|
      ensures forall i :: 0 <= i < |r| ==> r[i].0 == keys[i] && r[i].1 == items[keys[i]]
      ensures FromPairs(r) == Contents()
    {
      ItemsRoundTrip(Contents());
      Contents().Items()
    }
  }

  /** `mapped_jsontree(mapping, pairs)`: a tree of a fresh mapped class. */
  method MappedJsontree(arg: MappingArg, intrinsic: set<string>, init: seq<(Key, Value)>)
    returns (r: Result<JsonTree>)
    ensures r.Success? <==> MapperOf(arg).Success?
    ensures r.Success? ==>
      && fresh(r.value) && fresh(r.value.cls) && r.value.Valid()
      && r.value.cls.mapper == MapperOf(arg).value && r.value.cls.intrinsic == intrinsic
      && r.value.Contents() == FromPairs(init)
    ensures r.Failure? ==> r.error == MapperOf(arg).error
  {
    var c := MappedJsontreeClass(arg, intrinsic);
    if c.Failure? {
      return Failure(c.error);
    }
    var t := new JsonTree(c.value, init);
    return Success(t);
  }

  /** `setattr(t, name, v)` followed by `getattr(t, name)`, for any mapper:
      the write goes to the mapped key, and the read gives back the value
      written unless the mapped key names a class member, in which case the
      member shadows the data just stored. */
  method AttributeRoundTrip(t: JsonTree, name: string, v: Value) returns (r: Attribute)
    requires t.Valid()
    modifies t
    ensures t.Valid()
    ensures var k := Translate(t.cls.mapper, name);
      && t.Contents() == old(t.Contents()).Put(k, v)
      && (t.cls.IsMember(k) ==> r == Member(k.s))
      && (!t.cls.IsMember(k) ==> r == Data(v))
  {
    var _ := t.SetAttr(name, v);
    r := t.GetAttr(name);
  }
}
