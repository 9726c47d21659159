/** What `JSONTreeEncoder` and `JSONTreeDecoder` add to the standard JSON
    codec, stated on a JSON value rather than on text: the encoder's `default`
    writes date-times through a formatter and refuses every other unknown
    object; the decoder turns every object into a tree of the configured class
    and passes every string value through a date decoder. `clone` is the two
    in sequence. */
module Codec {
  import opened Wrappers
  import opened Decimal
  import opened IsoDateTime
  import Tree

  /** A JSON value, as the text layer reads and writes it. An object is its
      member list in textual order; names may repeat. */
  datatype Json =
    | JNull
    | JBool(b: bool)
    | JNumber(n: int)
    | JString(s: string)
    | JArray(elems: seq<Json>)
    | JObject(members: seq<(string, Json)>)

  /** A Python value as the encoder receives it and the decoder builds it:
      JSON scalars, date-times, lists, trees of a class (their items, in
      order), and objects of any other type, known by their type's name. */
  datatype Doc =
    | Null
    | Bool(b: bool)
    | Number(n: int)
    | Text(s: string)
    | Stamp(dt: DateTime)
    | List(elems: seq<Doc>)
    | Object(cls: Tree.TreeClass, items: seq<(Tree.Key, Doc)>)
    | Opaque(typeName: string)

  /** How the JSON encoder writes a dictionary key: a string as it is, an
      integer as its decimal text. */
  function KeyText(k: Tree.Key): (s: string)
    ensures k.StrKey? ==> s == k.s
    ensures k.IntKey? ==> s == IntText(k.i)
  {
    match k
    case StrKey(s) => s
    case IntKey(i) => IntText(i)
  }

  /** `JSONTreeEncoder.default`: the encoder reaches it only for the objects
      JSON has no form for. A date-time becomes whatever string the
      configured formatter makes of it (its error, if it raises); any other
      object gets the base encoder's TypeError. */
  function Default(o: Doc, stamp: DateTime -> Result<string>): (r: Result<Json>)
    requires o.Stamp? || o.Opaque?
    ensures o.Stamp? ==> (r.Success? <==> stamp(o.dt).Success?)
    ensures o.Stamp? && r.Success? ==> r.value == JString(stamp(o.dt).value)
    ensures o.Stamp? && r.Failure? ==> r.error == stamp(o.dt).error
    ensures o.Opaque? ==> r.Failure? && r.error.TypeError?
  {
    match o
    case Stamp(dt) =>
      (match stamp(dt)
       case Success(s) => Success(JString(s))
       case Failure(e) => Failure(e))
    case Opaque(t) => Failure(TypeError("Object of type " + t + " is not JSON serializable"))
  }

  /** Whether the encoder reaches a tree's items. It writes an empty dict as
      `{}` at once, and reads a non-empty one through `dct.items()`, an
      attribute read that a mapped class sends through its mapper. Only a
      mapper that leaves `items` alone reaches the dict method; any other key
      finds a stored value or vivifies an empty tree, and calling either
      raises TypeError. */
  predicate ReadsItems(c: Tree.TreeClass) {
    Tree.Translate(c.mapper, "items") == Tree.StrKey("items")
  }

  /** The encoder over a whole value: the first error, in document order,
      stops it. */
  function Encode(d: Doc, stamp: DateTime -> Result<string>): Result<Json>
    decreases d, 1
  {
    match d
    case Null => Success(JNull)
    case Bool(b) => Success(JBool(b))
    case Number(n) => Success(JNumber(n))
    case Text(s) => Success(JString(s))
    case List(es) =>
      (match EncodeList(es, stamp)
       case Success(js) => Success(JArray(js))
       case Failure(e) => Failure(e))
    case Object(c, items) =>
      if items != [] && !ReadsItems(c) then Failure(TypeError("object is not callable"))
      else
      (match EncodeItems(items, stamp, d)
       case Success(ms) => Success(JObject(ms))
       case Failure(e) => Failure(e))
    case Stamp(_) => Default(d, stamp)
    case Opaque(_) => Default(d, stamp)
  }

  function EncodeList(es: seq<Doc>, stamp: DateTime -> Result<string>): (r: Result<seq<Json>>)
    ensures r.Success? ==> |r.value| == |es|
  {
    if es == [] then Success([])
    else
      match Encode(es[0], stamp)
      case Failure(e) => Failure(e)
      case Success(j) =>
        match EncodeList(es[1..], stamp)
        case Failure(e) => Failure(e)
        case Success(js) => Success([j] + js)
  }

  /** The items of a tree, a suffix of parent's, encoded in order. */
  function EncodeItems(items: seq<(Tree.Key, Doc)>, stamp: DateTime -> Result<string>, ghost parent: Doc)
    : (r: Result<seq<(string, Json)>>)
    requires parent.Object? && |items| <= |parent.items|
    requires items == parent.items[|parent.items| - |items|..]
    decreases parent, 0, |items|
    ensures r.Success? ==> |r.value| == |items|
  {
    if items == [] then Success([])
    else
      assert items[0] in parent.items;
      match Encode(items[0].1, stamp)
      case Failure(e) => Failure(e)
      case Success(j) =>
        match EncodeItems(items[1..], stamp, parent)
        case Failure(e) => Failure(e)
        case Success(ms) => Success([(KeyText(items[0].0), j)] + ms)
  }

  /** The decoder's string hook: every string value goes through the date
      decoder. */
  function DecodeString(s: string, strings: string -> Decoded): (d: Doc)
    ensures d.Text? || d.Stamp?
  {
    match strings(s)
    case DateValue(dt) => Stamp(dt)
    case StringValue(t) => Text(t)
  }

  /** `JSONTreeDecoder._parse_string`: the base scanner's (string, end index)
      with the string passed through the date decoder and the index as it was. */
  function ParseStringHook(scanned: (string, nat), strings: string -> Decoded): (r: (Doc, nat))
    ensures r.1 == scanned.1
    ensures r.0.Stamp? <==> strings(scanned.0).DateValue?
    ensures r.0.Stamp? ==> strings(scanned.0) == DateValue(r.0.dt)
    ensures r.0.Text? ==> strings(scanned.0) == StringValue(r.0.s)
  {
    (DecodeString(scanned.0, strings), scanned.1)
  }

  /** `JSONTreeDecoder._parse_object`: the base parser's (dict, end index) with
      the dict re-wrapped as a tree of class cls holding the same entries in the
      same order, and the index as it was. */
  function ParseObjectHook(parsed: (Tree.Dict<Doc>, nat), cls: Tree.TreeClass): (r: (Doc, nat))
    requires parsed.0.Valid()
    ensures r.1 == parsed.1
    ensures r.0.Object? && r.0.cls == cls
    ensures Tree.FromPairs(r.0.items) == parsed.0
  {
    Tree.ItemsRoundTrip(parsed.0);
    (Object(cls, parsed.0.Items()), parsed.1)
  }

  /** The decoder over a whole value: every object, nested or not, becomes a
      tree of class cls holding `dict(members)`; object member names are read
      by the standard string scanner, so they never reach the date decoder. */
  function Decode(j: Json, cls: Tree.TreeClass, strings: string -> Decoded): Doc
    decreases j, 1
  {
    match j
    case JNull => Null
    case JBool(b) => Bool(b)
    case JNumber(n) => Number(n)
    case JString(s) => DecodeString(s, strings)
    case JArray(es) => List(DecodeList(es, cls, strings))
    case JObject(ms) => Object(cls, Tree.FromPairs(DecodeMembers(ms, cls, strings, j)).Items())
  }

  function DecodeList(es: seq<Json>, cls: Tree.TreeClass, strings: string -> Decoded): (r: seq<Doc>)
    ensures |r| == |es|
  {
    if es == [] then [] else [Decode(es[0], cls, strings)] + DecodeList(es[1..], cls, strings)
  }

  /** The members of an object, a suffix of parent's, decoded in order. */
  function DecodeMembers(ms: seq<(string, Json)>, cls: Tree.TreeClass, strings: string -> Decoded, ghost parent: Json)
    : (r: seq<(Tree.Key, Doc)>)
    requires parent.JObject? && |ms| <= |parent.members|
    requires ms == parent.members[|parent.members| - |ms|..]
    decreases parent, 0, |ms|
    ensures |r| == |ms|
    ensures forall i :: 0 <= i < |ms| ==> r[i].0 == Tree.StrKey(ms[i].0)
  {
    if ms == [] then []
    else
      assert ms[0] in parent.members;
      [(Tree.StrKey(ms[0].0), Decode(ms[0].1, cls, strings))] + DecodeMembers(ms[1..], cls, strings, parent)
  }

  /** Decode is the two hooks applied where the scanner applies them: at every
      string value and every completed object, whatever index the scanner has
      reached. */
  lemma DecodeViaHooks(j: Json, cls: Tree.TreeClass, strings: string -> Decoded, end: nat)
    ensures j.JString? ==> Decode(j, cls, strings) == ParseStringHook((j.s, end), strings).0
    ensures j.JObject? ==>
      Decode(j, cls, strings) == ParseObjectHook((Tree.FromPairs(DecodeMembers(j.members, cls, strings, j)), end), cls).0
  {
  }

  /** `clone(root, cls, encoder, decoder)`: encode, then decode. */
  function Clone(d: Doc, cls: Tree.TreeClass, stamp: DateTime -> Result<string>, strings: string -> Decoded)
    : Result<Doc>
  {
    match Encode(d, stamp)
    case Success(j) => Success(Decode(j, cls, strings))
    case Failure(e) => Failure(e)
  }

  // ---------------------------------------------------------------------
  // When encoding succeeds

  /** No object the encoder has no form for, every date-time formats, and
      every non-empty tree's items are reachable. */
  predicate Encodable(d: Doc, stamp: DateTime -> Result<string>) {
    match d
    case Stamp(dt) => stamp(dt).Success?
    case Opaque(_) => false
    case List(es) => forall i :: 0 <= i < |es| ==> Encodable(es[i], stamp)
    case Object(c, items) =>
      && (items != [] ==> ReadsItems(c))
      && forall i :: 0 <= i < |items| ==> Encodable(items[i].1, stamp)
    case _ => true
  }

  /** Encoding fails exactly when the value holds an unknown object, a
      date-time the formatter refuses, or a non-empty tree whose class maps
      `items` to another key. */
  lemma {:induction false} EncodeSucceeds(d: Doc, stamp: DateTime -> Result<string>)
    ensures Encode(d, stamp).Success? <==> Encodable(d, stamp)
    decreases d, 1
  {
    match d
    case List(es) => EncodeListSucceeds(es, stamp);
    case Object(_, items) => EncodeItemsSucceed(items, stamp, d);
    case _ =>
  }

  /** A non-empty tree whose class renames `items` is refused with TypeError,
      whatever it holds. */
  lemma RenamedItemsRefused(c: Tree.TreeClass, items: seq<(Tree.Key, Doc)>, stamp: DateTime -> Result<string>)
    requires items != [] && !ReadsItems(c)
    ensures Encode(Object(c, items), stamp).Failure?
    ensures Encode(Object(c, items), stamp).error.TypeError?
  {
  }

  lemma {:induction false} EncodeListSucceeds(es: seq<Doc>, stamp: DateTime -> Result<string>)
    ensures EncodeList(es, stamp).Success? <==> forall i :: 0 <= i < |es| ==> Encodable(es[i], stamp)
  {
    if es != [] {
      EncodeSucceeds(es[0], stamp);
      EncodeListSucceeds(es[1..], stamp);
      assert forall i :: 1 <= i < |es| ==> es[1..][i - 1] == es[i];
    }
  }

  lemma {:induction false} EncodeItemsSucceed(items: seq<(Tree.Key, Doc)>, stamp: DateTime -> Result<string>, parent: Doc)
    requires parent.Object? && |items| <= |parent.items|
    requires items == parent.items[|parent.items| - |items|..]
    ensures EncodeItems(items, stamp, parent).Success? <==> forall i :: 0 <= i < |items| ==> Encodable(items[i].1, stamp)
    decreases parent, 0, |items|
  {
    if items != [] {
      assert items[0] in parent.items;
      EncodeSucceeds(items[0].1, stamp);
      EncodeItemsSucceed(items[1..], stamp, parent);
      assert forall i :: 1 <= i < |items| ==> items[1..][i - 1] == items[i];
    }
  }

  // ---------------------------------------------------------------------
  // What decoding builds

  /** A value the decoder can build: objects are trees of class cls with
      distinct string keys, and nothing is of an unknown type. */
  predicate TreeOf(d: Doc, cls: Tree.TreeClass) {
    match d
    case Opaque(_) => false
    case List(es) => forall i :: 0 <= i < |es| ==> TreeOf(es[i], cls)
    case Object(c, items) =>
      && c == cls
      && Tree.DistinctKeys(items)
      && (forall i :: 0 <= i < |items| ==> items[i].0.StrKey? && TreeOf(items[i].1, cls))
    case _ => true
  }

  /** Every object the decoder builds, the root and every nested one, is a tree
      of the configured class, with string keys, and nothing decodes to an
      unknown object. */
  lemma {:induction false} DecodeBuildsTrees(j: Json, cls: Tree.TreeClass, strings: string -> Decoded)
    ensures TreeOf(Decode(j, cls, strings), cls)
    decreases j
  {
    match j
    case JArray(es) =>
      forall i | 0 <= i < |es|
        ensures TreeOf(DecodeList(es, cls, strings)[i], cls)
      {
        DecodeListAt(es, cls, strings, i);
        DecodeBuildsTrees(es[i], cls, strings);
      }
    case JObject(ms) =>
      var pairs := DecodeMembers(ms, cls, strings, j);
      var items := Tree.FromPairs(pairs).Items();
      forall i | 0 <= i < |items|
        ensures items[i].0.StrKey? && TreeOf(items[i].1, cls)
      {
        var k := items[i].0;
        assert k in Tree.FromPairs(pairs).entries;
        Tree.FromPairsKeys(pairs);
        var m := LastPairOf(pairs, k);
        Tree.FromPairsLastWins(pairs, m);
        DecodeMembersAt(ms, cls, strings, j, m);
        assert ms[m] in ms;
        DecodeBuildsTrees(ms[m].1, cls, strings);
      }
    case _ =>
  }

  /** The last pair with key k. */
  lemma LastPairOf<V>(pairs: seq<(Tree.Key, V)>, k: Tree.Key) returns (m: nat)
    requires k in Tree.PairKeys(pairs)
    ensures m < |pairs| && pairs[m].0 == k
    ensures forall j :: m < j < |pairs| ==> pairs[j].0 != k
  {
    var i :| 0 <= i < |pairs| && pairs[i].0 == k;
    m := i;
    while m + 1 < |pairs| && exists j :: m < j < |pairs| && pairs[j].0 == k
      invariant m < |pairs| && pairs[m].0 == k
      decreases |pairs| - m
    {
      var j :| m < j < |pairs| && pairs[j].0 == k;
      m := j;
    }
  }

  lemma {:induction false} DecodeListAt(es: seq<Json>, cls: Tree.TreeClass, strings: string -> Decoded, i: nat)
    requires i < |es|
    ensures DecodeList(es, cls, strings)[i] == Decode(es[i], cls, strings)
  {
    if i > 0 {
      DecodeListAt(es[1..], cls, strings, i - 1);
    }
  }

  lemma {:induction false} DecodeMembersAt(ms: seq<(string, Json)>, cls: Tree.TreeClass, strings: string -> Decoded,
                                           parent: Json, i: nat)
    requires parent.JObject? && |ms| <= |parent.members|
    requires ms == parent.members[|parent.members| - |ms|..]
    requires i < |ms|
    ensures DecodeMembers(ms, cls, strings, parent)[i].1 == Decode(ms[i].1, cls, strings)
  {
    if i > 0 {
      DecodeMembersAt(ms[1..], cls, strings, parent, i - 1);
    }
  }

  // ---------------------------------------------------------------------
  // Encoding element by element

  /** A list encodes to the list of its elements' encodings when each of them
      encodes. */
  lemma {:induction false} EncodeListAll(es: seq<Doc>, stamp: DateTime -> Result<string>, out: seq<Json>)
    requires |out| == |es|
    requires forall i :: 0 <= i < |es| ==> Encode(es[i], stamp) == Success(out[i])
    ensures EncodeList(es, stamp) == Success(out)
  {
    if es != [] {
      assert forall i :: 0 <= i < |es| - 1 ==> es[1..][i] == es[i + 1] && out[1..][i] == out[i + 1];
      EncodeListAll(es[1..], stamp, out[1..]);
      assert out == [out[0]] + out[1..];
    }
  }

  /** A tree's items encode to their key texts paired with their values'
      encodings when each value encodes. */
  lemma {:induction false} EncodeItemsAll(items: seq<(Tree.Key, Doc)>, stamp: DateTime -> Result<string>,
                                          parent: Doc, out: seq<(string, Json)>)
    requires parent.Object? && |items| <= |parent.items|
    requires items == parent.items[|parent.items| - |items|..]
    requires |out| == |items|
    requires forall i :: 0 <= i < |items| ==>
               out[i].0 == KeyText(items[i].0) && Encode(items[i].1, stamp) == Success(out[i].1)
    ensures EncodeItems(items, stamp, parent) == Success(out)
  {
    if items != [] {
      assert forall i :: 0 <= i < |items| - 1 ==> items[1..][i] == items[i + 1] && out[1..][i] == out[i + 1];
      EncodeItemsAll(items[1..], stamp, parent, out[1..]);
      assert out == [(out[0].0, out[0].1)] + out[1..];
    }
  }

  // ---------------------------------------------------------------------
  // Round trips

  /** JSON the decoder reads back unchanged: no object repeats a member name
      (`dict` would keep only the last), and no string looks like a date-time
      to the date decoder. */
  predicate Plain(j: Json, strings: string -> Decoded) {
    match j
    case JString(s) => strings(s) == StringValue(s)
    case JArray(es) => forall i :: 0 <= i < |es| ==> Plain(es[i], strings)
    case JObject(ms) =>
      && (forall a, b :: 0 <= a < b < |ms| ==> ms[a].0 != ms[b].0)
      && (forall i :: 0 <= i < |ms| ==> Plain(ms[i].1, strings))
    case _ => true
  }

  /** Decoding plain JSON into trees of a class the encoder can read and
      encoding the result again gives the same JSON, whatever the date-time
      formatter. (A class that renames `items` is refused: see
      RenamedItemsRefused.) */
  lemma {:induction false} DecodeEncodeRoundTrip(j: Json, cls: Tree.TreeClass, strings: string -> Decoded,
                                                 stamp: DateTime -> Result<string>)
    requires Plain(j, strings) && ReadsItems(cls)
    ensures Encode(Decode(j, cls, strings), stamp) == Success(j)
    decreases j, 2
  {
    match j
    case JArray(_) => DecodeEncodeArray(j, cls, strings, stamp);
    case JObject(_) => DecodeEncodeObject(j, cls, strings, stamp);
    case _ =>
  }

  lemma {:induction false} DecodeEncodeArray(j: Json, cls: Tree.TreeClass, strings: string -> Decoded,
                                             stamp: DateTime -> Result<string>)
    requires j.JArray? && Plain(j, strings) && ReadsItems(cls)
    ensures Encode(Decode(j, cls, strings), stamp) == Success(j)
    decreases j, 0
  {
    var es := j.elems;
    var ds := DecodeList(es, cls, strings);
    forall i | 0 <= i < |ds|
      ensures Encode(ds[i], stamp) == Success(es[i])
    {
      DecodeListAt(es, cls, strings, i);
      DecodeEncodeRoundTrip(es[i], cls, strings, stamp);
    }
    EncodeListAll(ds, stamp, es);
  }

  lemma {:induction false} DecodeEncodeObject(j: Json, cls: Tree.TreeClass, strings: string -> Decoded,
                                              stamp: DateTime -> Result<string>)
    requires j.JObject? && Plain(j, strings) && ReadsItems(cls)
    ensures Encode(Decode(j, cls, strings), stamp) == Success(j)
    decreases j, 1
  {
    var pairs := DecodeMembers(j.members, cls, strings, j);
    DecodedMembersEncode(j, cls, strings, stamp);
    DecodeDistinctObject(j, cls, strings);
    EncodeItemsAll(pairs, stamp, Object(cls, pairs), j.members);
    EncodeObject(cls, pairs, stamp, j.members);
  }

  /** Each decoded member value of plain JSON encodes back to the member's
      value. */
  lemma {:induction false} DecodedMembersEncode(j: Json, cls: Tree.TreeClass, strings: string -> Decoded,
                                                stamp: DateTime -> Result<string>)
    requires j.JObject? && Plain(j, strings) && ReadsItems(cls)
    ensures var pairs := DecodeMembers(j.members, cls, strings, j);
      forall i :: 0 <= i < |pairs| ==> Encode(pairs[i].1, stamp) == Success(j.members[i].1)
    decreases j, 0
  {
    var ms := j.members;
    var pairs := DecodeMembers(ms, cls, strings, j);
    forall i | 0 <= i < |pairs|
      ensures Encode(pairs[i].1, stamp) == Success(ms[i].1)
    {
      DecodeMembersAt(ms, cls, strings, j, i);
      assert ms[i] in ms;
      DecodeEncodeRoundTrip(ms[i].1, cls, strings, stamp);
    }
  }

  lemma EncodeObject(cls: Tree.TreeClass, items: seq<(Tree.Key, Doc)>, stamp: DateTime -> Result<string>,
                     ms: seq<(string, Json)>)
    requires items != [] ==> ReadsItems(cls)
    requires EncodeItems(items, stamp, Object(cls, items)) == Success(ms)
    ensures Encode(Object(cls, items), stamp) == Success(JObject(ms))
  {
  }

  /** An object without repeated names decodes to its members in order. */
  lemma DecodeDistinctObject(j: Json, cls: Tree.TreeClass, strings: string -> Decoded)
    requires j.JObject? && Plain(j, strings)
    ensures Decode(j, cls, strings) == Object(cls, DecodeMembers(j.members, cls, strings, j))
  {
    var pairs := DecodeMembers(j.members, cls, strings, j);
    assert Tree.DistinctKeys(pairs);
    Tree.FromDistinctPairs(pairs);
  }

  /** A value clone reproduces: every tree is of class cls with distinct
      string keys (the encoder writes other keys as text) and, when it is not
      empty, items the encoder can reach, no string looks
      like a date-time, every date-time is one isoformat can write and the
      date decoder reads back, and nothing is of an unknown type. */
  predicate Cloneable(d: Doc, cls: Tree.TreeClass) {
    match d
    case Text(s) => Recognize(s) == StringValue(s)
    case Stamp(dt) => Reproducible(dt)
    case Opaque(_) => false
    case List(es) => forall i :: 0 <= i < |es| ==> Cloneable(es[i], cls)
    case Object(c, items) =>
      && c == cls
      && (items != [] ==> ReadsItems(c))
      && Tree.DistinctKeys(items)
      && (forall i :: 0 <= i < |items| ==> items[i].0.StrKey? && Cloneable(items[i].1, cls))
    case _ => true
  }

  /** With the default hooks, encoding a cloneable value succeeds and decoding
      the JSON gives the value back. */
  lemma {:induction false} EncodeDecodeRoundTrip(d: Doc, cls: Tree.TreeClass)
    requires Cloneable(d, cls)
    ensures Encode(d, Isoformat).Success?
    ensures Decode(Encode(d, Isoformat).value, cls, Recognize) == d
    decreases d, 2
  {
    match d
    case Stamp(dt) => IsoformatRoundTrip(dt);
    case List(_) => EncodeDecodeList(d, cls);
    case Object(_, _) => EncodeDecodeObject(d, cls);
    case _ =>
  }

  lemma {:induction false} EncodeDecodeList(d: Doc, cls: Tree.TreeClass)
    requires d.List? && Cloneable(d, cls)
    ensures Encode(d, Isoformat).Success?
    ensures Decode(Encode(d, Isoformat).value, cls, Recognize) == d
    decreases d, 0
  {
    var es := d.elems;
    forall i | 0 <= i < |es|
      ensures Encode(es[i], Isoformat).Success? && Decode(Encode(es[i], Isoformat).value, cls, Recognize) == es[i]
    {
      EncodeDecodeRoundTrip(es[i], cls);
    }
    var js := seq(|es|, i requires 0 <= i < |es| => Encode(es[i], Isoformat).value);
    EncodeListAll(es, Isoformat, js);
    var back := DecodeList(js, cls, Recognize);
    forall i | 0 <= i < |es|
      ensures back[i] == es[i]
    {
      DecodeListAt(js, cls, Recognize, i);
    }
  }

  lemma {:induction false} EncodeDecodeObject(d: Doc, cls: Tree.TreeClass)
    requires d.Object? && Cloneable(d, cls)
    ensures Encode(d, Isoformat).Success?
    ensures Decode(Encode(d, Isoformat).value, cls, Recognize) == d
    decreases d, 1
  {
    var items := d.items;
    ItemsEncodeDecode(d, cls);
    var ms := seq(|items|, i requires 0 <= i < |items| => (items[i].0.s, Encode(items[i].1, Isoformat).value));
    EncodeItemsAll(items, Isoformat, d, ms);
    EncodeObject(cls, items, Isoformat, ms);
    DecodeObjectOf(ms, cls, Recognize, items);
  }

  /** Each value of a cloneable tree encodes, and decodes back to itself. */
  lemma {:induction false} ItemsEncodeDecode(d: Doc, cls: Tree.TreeClass)
    requires d.Object? && Cloneable(d, cls)
    ensures forall i :: 0 <= i < |d.items| ==>
      Encode(d.items[i].1, Isoformat).Success? && Decode(Encode(d.items[i].1, Isoformat).value, cls, Recognize) == d.items[i].1
    decreases d, 0
  {
    var items := d.items;
    forall i | 0 <= i < |items|
      ensures Encode(items[i].1, Isoformat).Success?
      ensures Decode(Encode(items[i].1, Isoformat).value, cls, Recognize) == items[i].1
    {
      assert items[i] in items;
      EncodeDecodeRoundTrip(items[i].1, cls);
    }
  }

  /** Members whose names are the string keys of items, in order and without
      repeats, and whose values decode to the items' values, decode to a tree
      holding exactly those items. */
  lemma DecodeObjectOf(ms: seq<(string, Json)>, cls: Tree.TreeClass, strings: string -> Decoded,
                       items: seq<(Tree.Key, Doc)>)
    requires |ms| == |items| && Tree.DistinctKeys(items)
    requires forall i :: 0 <= i < |items| ==>
      items[i].0 == Tree.StrKey(ms[i].0) && Decode(ms[i].1, cls, strings) == items[i].1
    ensures Decode(JObject(ms), cls, strings) == Object(cls, items)
  {
    var j := JObject(ms);
    var pairs := DecodeMembers(ms, cls, strings, j);
    forall i | 0 <= i < |items|
      ensures pairs[i] == items[i]
    {
      DecodeMembersAt(ms, cls, strings, j, i);
    }
    assert pairs == items;
    Tree.FromDistinctPairs(items);
  }

  /** `clone` with the default hooks gives back every cloneable value. */
  lemma CloneRoundTrip(d: Doc, cls: Tree.TreeClass)
    requires Cloneable(d, cls)
    ensures Clone(d, cls, Isoformat, Recognize) == Success(d)
  {
    EncodeDecodeRoundTrip(d, cls);
  }
}
