/** What `clone` and the decoder do on a few small values. */
module CodecExamples {
  import opened Wrappers
  import opened Decimal
  import opened IsoDateTime
  import Tree
  import IsoExamples
  import opened Codec

  /** An integer key comes back as its decimal text: JSON object names are
      strings. */
  lemma CloneIntegerKey(c1: Tree.TreeClass, c2: Tree.TreeClass)
    requires ReadsItems(c1)
    ensures Clone(Object(c1, [(Tree.IntKey(1), Text("something"))]), c2, Isoformat, Recognize)
         == Success(Object(c2, [(Tree.StrKey("1"), Text("something"))]))
  {
    IntTextDigit(1);
    CloneSingleItem(c1, c2, Tree.IntKey(1), "something");
  }

  lemma CloneSingleItem(c1: Tree.TreeClass, c2: Tree.TreeClass, k: Tree.Key, s: string)
    requires ReadsItems(c1) && Recognize(s) == StringValue(s)
    ensures Clone(Object(c1, [(k, Text(s))]), c2, Isoformat, Recognize)
         == Success(Object(c2, [(Tree.StrKey(KeyText(k)), Text(s))]))
  {
    EncodeSingleItem(c1, k, s);
    DecodeSingleMember(c2, KeyText(k), s, Recognize);
  }

  lemma EncodeSingleItem(cls: Tree.TreeClass, k: Tree.Key, s: string)
    requires ReadsItems(cls)
    ensures Encode(Object(cls, [(k, Text(s))]), Isoformat) == Success(JObject([(KeyText(k), JString(s))]))
  {
    var d := Object(cls, [(k, Text(s))]);
    EncodeItemsAll(d.items, Isoformat, d, [(KeyText(k), JString(s))]);
  }

  lemma DecodeSingleMember(cls: Tree.TreeClass, name: string, s: string, strings: string -> Decoded)
    requires strings(s) == StringValue(s)
    ensures Decode(JObject([(name, JString(s))]), cls, strings) == Object(cls, [(Tree.StrKey(name), Text(s))])
  {
    var j := JObject([(name, JString(s))]);
    var pairs := DecodeMembers(j.members, cls, strings, j);
    DecodeMembersAt(j.members, cls, strings, j, 0);
    assert pairs == [(Tree.StrKey(name), Text(s))];
    SingleItem(Tree.StrKey(name), Text(s));
  }

  /** A string that reads as a date-time comes back as that date-time. */
  lemma CloneDateLikeText(cls: Tree.TreeClass)
    ensures Clone(Text("2013-04-29 22:45:35"), cls, Isoformat, Recognize)
         == Success(Stamp(DateTime(2013, 4, 29, 22, 45, 35, 0, None)))
  {
    IsoExamples.ExampleNaive("2013-04-29 22:45:35");
  }

  /** A date-time a full day ahead of UTC makes isoformat, and so clone, fail. */
  lemma CloneFullDayOffset(cls: Tree.TreeClass)
    ensures Clone(Stamp(DateTime(2013, 4, 29, 22, 45, 35, 0, Some(TzOffset(1440, 1380, "")))), cls, Isoformat, Recognize)
              .Failure?
    ensures Clone(Stamp(DateTime(2013, 4, 29, 22, 45, 35, 0, Some(TzOffset(1440, 1380, "")))), cls, Isoformat, Recognize)
              .error.ValueError?
  {
  }

  /** An object of no known type is refused with the encoder's TypeError. */
  lemma CloneUnknownObject(cls: Tree.TreeClass, typeName: string)
    ensures Clone(Opaque(typeName), cls, Isoformat, Recognize)
         == Failure(TypeError("Object of type " + typeName + " is not JSON serializable"))
  {
  }

  /** A repeated member name keeps the last value, at the first position. */
  lemma RepeatedName(cls: Tree.TreeClass)
    ensures Decode(JObject([("a", JNumber(1)), ("b", JNull), ("a", JNumber(2))]), cls, Recognize)
         == Object(cls, [(Tree.StrKey("a"), Number(2)), (Tree.StrKey("b"), Null)])
  {
    RepeatedMember(cls, "a", "b", JNumber(1), JNull, JNumber(2), Recognize);
  }

  lemma RepeatedMember(cls: Tree.TreeClass, a: string, b: string, x: Json, y: Json, z: Json,
                       strings: string -> Decoded)
    requires a != b
    ensures Decode(JObject([(a, x), (b, y), (a, z)]), cls, strings)
         == Object(cls, [(Tree.StrKey(a), Decode(z, cls, strings)), (Tree.StrKey(b), Decode(y, cls, strings))])
  {
    var j := JObject([(a, x), (b, y), (a, z)]);
    var dx, dy, dz := Decode(x, cls, strings), Decode(y, cls, strings), Decode(z, cls, strings);
    ThreeMembers(cls, j, strings);
    assert DecodeMembers(j.members, cls, strings, j) == [(Tree.StrKey(a), dx), (Tree.StrKey(b), dy), (Tree.StrKey(a), dz)];
    RepeatedKey(Tree.StrKey(a), Tree.StrKey(b), dx, dy, dz);
  }

  lemma ThreeMembers(cls: Tree.TreeClass, j: Json, strings: string -> Decoded)
    requires j.JObject? && |j.members| == 3
    ensures DecodeMembers(j.members, cls, strings, j)
         == seq(3, i requires 0 <= i < 3 => (Tree.StrKey(j.members[i].0), Decode(j.members[i].1, cls, strings)))
  {
    DecodeMembersAt(j.members, cls, strings, j, 0);
    DecodeMembersAt(j.members, cls, strings, j, 1);
    DecodeMembersAt(j.members, cls, strings, j, 2);
  }

  lemma RepeatedKey<V>(a: Tree.Key, b: Tree.Key, x: V, y: V, z: V)
    requires a != b
    ensures Tree.FromPairs([(a, x), (b, y), (a, z)]).Items() == [(a, z), (b, y)]
  {
    TwoPairs(a, b, x, y);
    Tree.FromPairsSnoc([(a, x), (b, y)], (a, z));
    assert [(a, x), (b, y)] + [(a, z)] == [(a, x), (b, y), (a, z)];
    var m := map[a := x, b := y];
    assert m[a := z] == map[a := z, b := y];
    assert Tree.Dict([a, b], m).Put(a, z) == Tree.Dict([a, b], map[a := z, b := y]);
    TwoItems(a, b, z, y);
  }

  lemma TwoPairs<V>(a: Tree.Key, b: Tree.Key, x: V, y: V)
    requires a != b
    ensures Tree.FromPairs([(a, x), (b, y)]) == Tree.Dict([a, b], map[a := x, b := y])
  {
    Tree.FromPairsSnoc([], (a, x));
    assert [] + [(a, x)] == [(a, x)];
    Tree.FromPairsSnoc([(a, x)], (b, y));
    assert [(a, x)] + [(b, y)] == [(a, x), (b, y)];
  }

  lemma TwoItems<V>(a: Tree.Key, b: Tree.Key, x: V, y: V)
    requires a != b
    ensures Tree.Dict([a, b], map[a := x, b := y]).Items() == [(a, x), (b, y)]
  {
    var items := Tree.Dict([a, b], map[a := x, b := y]).Items();
    assert items[0] == (a, x) && items[1] == (b, y);
  }

  lemma SingleItem(k: Tree.Key, v: Doc)
    ensures Tree.FromPairs([(k, v)]).Items() == [(k, v)]
  {
    assert Tree.DistinctKeys([(k, v)]);
    Tree.FromDistinctPairs([(k, v)]);
  }
}
