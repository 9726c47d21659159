/** The usage shown in the library's documentation, replayed on the model. */
module TreeExamples {
  import opened Wrappers
  import opened Tree

  /** `mytree = jsontree(); mytree.something.there = 3` leaves
      `mytree['something']['there'] == 3`. */
  method AttributeChain(jsontree: TreeClass) returns (r: Value)
    requires jsontree.mapper.Identity? && jsontree.intrinsic == DictAttributes
    ensures r == Number(3)
  {
    var mytree := new JsonTree(jsontree, []);
    var something := mytree.GetAttr("something");
    var child := something.value.node;
    var _ := child.SetAttr("there", Number(3));
    var a := mytree.GetItem(StrKey("something"));
    r := a.node.GetItem(StrKey("there"));
  }

  /** Reading the same missing key twice gives the node the first read made. */
  method ReadTwice(t: JsonTree, k: Key) returns (first: Value, second: Value)
    requires t.Valid()
    modifies t
    ensures k in t.items && first == second && first == t.items[k]
    ensures k !in old(t.items) ==> first.Node? && fresh(first.node) && first.node.cls == t.cls
  {
    first := t.GetItem(k);
    second := t.GetItem(k);
  }

  /** `numjt = mapped_jsontree_class(dict(one='1', two='2', three='3'))`;
      `number.one = 'something'` leaves `dict(number) == {'1': 'something'}`. */
  method TableMapping() returns (contents: Dict<Value>)
    ensures contents == Dict([StrKey("1")], map[StrKey("1") := Text("something")])
  {
    var table := map["one" := StrKey("1"), "two" := StrKey("2"), "three" := StrKey("3")];
    var numjt := MappedJsontreeClass(MappingArg(None, Some(table)), DictAttributes);
    var number := new JsonTree(numjt.value, []);
    var _ := number.SetAttr("one", Text("something"));
    contents := number.Contents();
  }

  /** With `dict(one=1, two=2)` the key is the integer 1. */
  method IntegerMapping() returns (contents: Dict<Value>)
    ensures contents == Dict([IntKey(1)], map[IntKey(1) := Text("something")])
  {
    var table := map["one" := IntKey(1), "two" := IntKey(2)];
    var numjt := MappedJsontreeClass(MappingArg(None, Some(table)), DictAttributes);
    var number := new JsonTree(numjt.value, []);
    var _ := number.SetAttr("one", Text("something"));
    contents := number.Contents();
  }

  /** Underscores become spaces, as `name.replace('_', ' ')` does. */
  function Spaced(name: string): (r: string)
    ensures |r| == |name|
    ensures forall i :: 0 <= i < |name| ==> r[i] == if name[i] == '_' then ' ' else name[i]
  {
    seq(|name|, i requires 0 <= i < |name| => if name[i] == '_' then ' ' else name[i])
  }

  function Spacify(name: string): Key {
    StrKey(Spaced(name))
  }

  lemma HelloThere()
    ensures Spacify("hello_there") == StrKey("hello there")
  {
    assert Spaced("hello_there")[5] == ' ';
  }

  lemma HelloThereIsNoMember()
    ensures "hello there" !in DictAttributes
  {
  }

  lemma TwoIsNoMember()
    ensures "2" !in DictAttributes
  {
  }

  lemma TwoItems(init: seq<(Key, Value)>)
    requires init == [(StrKey("1"), Text("something")), (StrKey("2"), Text("hello"))]
    ensures FromPairs(init).Items() == init
  {
    assert DistinctKeys(init);
    FromDistinctPairs(init);
  }

  /** `sm = mapped_jsontree_class(spacify)()`; `sm.hello_there = 5`; then
      `sm.hello_there == 5` and `list(sm.keys()) == ['hello there']`. */
  method CallableMapping() returns (read: Attribute, keys: seq<Key>)
    ensures read == Data(Number(5)) && keys == [StrKey("hello there")]
  {
    var spacemapped := MappedJsontreeClass(MappingArg(Some(Spacify), None), DictAttributes);
    var sm := new JsonTree(spacemapped.value, []);
    HelloThere();
    HelloThereIsNoMember();
    var _ := sm.SetAttr("hello_there", Number(5));
    read := sm.GetAttr("hello_there");
    keys := sm.keys;
  }

  /** `mapped_jsontree(dict(one='1', two='2', three='3', four='4'),
      {'1': 'something', '2': 'hello'})`: `number.two == 'hello'`, and the items
      are `[('1', 'something'), ('2', 'hello')]`. */
  method MappedConstruction() returns (two: Attribute, items: seq<(Key, Value)>)
    ensures two == Data(Text("hello"))
    ensures items == [(StrKey("1"), Text("something")), (StrKey("2"), Text("hello"))]
  {
    var table := map["one" := StrKey("1"), "two" := StrKey("2"), "three" := StrKey("3"), "four" := StrKey("4")];
    var init := [(StrKey("1"), Text("something")), (StrKey("2"), Text("hello"))];
    var number := MappedJsontree(MappingArg(None, Some(table)), DictAttributes, init);
    var t := number.value;
    TwoItems(init);
    TwoIsNoMember();
    two := t.GetAttr("two");
    items := t.Items();
  }

  /** A mapped name that is a member of the class reads the member, even when
      the mapping was meant to rename a key. */
  method MappedOntoMember() returns (read: Attribute)
    ensures read == Member("keys")
  {
    var renaming := MappedJsontreeClass(MappingArg(None, Some(map["field" := StrKey("keys")])), DictAttributes);
    var t := new JsonTree(renaming.value, []);
    read := t.GetAttr("field");
  }

  /** `t.keys = 1` stores an entry under "keys", yet reading `t.keys` still
      gives the dictionary's own method. */
  method IntrinsicNameWrite(jsontree: TreeClass) returns (read: Attribute, contents: Dict<Value>)
    requires jsontree.mapper.Identity? && jsontree.intrinsic == DictAttributes
    ensures contents == Dict([StrKey("keys")], map[StrKey("keys") := Number(1)])
    ensures read == Member("keys")
  {
    var t := new JsonTree(jsontree, []);
    var _ := t.SetAttr("keys", Number(1));
    read := t.GetAttr("keys");
    contents := t.Contents();
  }

  /** Something neither callable nor a Mapping is refused with TypeError. */
  method NotAMapping() returns (r: Result<TreeClass>)
    ensures r.Failure? && r.error.TypeError?
  {
    r := MappedJsontreeClass(MappingArg(None, None), DictAttributes);
  }
}
