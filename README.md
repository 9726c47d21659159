# jsontree in Dafny

This project models the core of the Python library `jsontree` (file
`jsontree.py`). The library provides an auto-vivifying, attribute-addressable
JSON tree and a JSON codec that turns ISO date-time strings into `datetime`
values and back. The model has four parts:

- **Temporal codec** (`iso_datetime.dfy`, module `IsoDateTime`).
  - The pattern `_datetime_iso_re` is a hand-written prefix matcher (`MatchIso`). It returns the named groups `parsable`, `T`, `f`, `z` and `Z`.
  - `IsMatch` states what a match is. `MatchIsoComplete` proves that the matcher finds the only groups the greedy, `$`-less pattern can match.
  - `datetime.strptime` becomes `Strptime`. It reads the fields at their fixed positions and checks them with the calendar and clock ranges of `datetime` (year 1-9999, Gregorian month lengths, hour 0-23, minute and second 0-59). `%f` takes one to six digits and right-pads them to microseconds.
  - `_FixedTzOffset` becomes `FixedTzOffset`: the offset and `dst` in minutes, and an empty name.
  - `_datetimedecoder` becomes `Recognize`.
  - `datetime.isoformat`, the default `_datetimeencoder`, becomes `Isoformat`.
- **Tree** (`tree.dfy`, module `Tree`).
  - `jsontree` and the classes built by `mapped_jsontree_class` are one Dafny class, `JsonTree`. It holds an insertion-ordered key sequence and a key→value map; a value may be a reference to another `JsonTree`.
  - Each instance points to a `TreeClass` object. That object holds the name mapping (`Identity`, `Table(map)` or `Fn(f)`) and the abstract set of intrinsic member names that `object.__getattribute__` would find.
  - A missing key read through `GetItem` or `GetAttr` stores a fresh empty tree of the same class and returns it.
  - `Dict`, `FromPairs` and `Items` model Python's `dict(pairs)` and `items()`. The constructor and the decoder's object hook build trees through them.
- **Codec** (`codec.dfy`, module `Codec`). The two hooks act on a JSON value datatype (`Json`) and a Python-side value datatype (`Doc`). No text is involved.
  - `JSONTreeEncoder.default` becomes `Default`.
  - `_parse_string` and `_parse_object` become `ParseStringHook` and `ParseObjectHook`. Each returns the scanner index unchanged.
  - Their effect on a whole document is `Decode`, and the encoder's effect is `Encode`.
  - `clone` becomes `Clone`.
- **Examples** (`iso_examples.dfy`, `tree_examples.dfy`, `codec_examples.dfy`). These replay the date strings listed in the library and its documentation examples.

Some behaviour follows the code rather than the library's comments or the usual description of the design:

- A string whose match includes the trailing `Z` group is never parsed. The format gains a literal `Z` that the `parsable` group cannot hold, so `strptime` raises and the string comes back unchanged. This holds even though jsontree.py:22 lists such a string as an example (`ZuluIsNeverParsed`, `IsoExamples.ExampleZulu`).
- The pattern admits a seven-digit fraction, but `%f` does not. Such strings come back unchanged (`LongFractionIsNeverParsed`).
- `_FixedTzOffset` has no range check, so `+24:00` is read as 1440 minutes. `isoformat` then refuses it with `ValueError`, so `clone` of such a value fails (`IsoExamples.ExampleFullDayOffset`, `CodecExamples.CloneFullDayOffset`).
- A mapping argument that is neither callable nor a `Mapping` raises `TypeError` before any class is built. A callable is used as-is even if it is also a `Mapping`. This follows Python 3 up to 3.9, where `collections.Mapping` still exists. From Python 3.10 on, jsontree.py:160 raises `AttributeError` for every argument that is not callable, dict tables included.
- The JSON encoder writes an empty tree as `{}` at once, but reads a non-empty one through `tree.items()`. That is an attribute read, and a mapped class sends it through its mapper. A class whose mapper renames `items` therefore makes `dumps` and `clone` fail with `TypeError` on every non-empty tree (`Codec.RenamedItemsRefused`). The round trips are stated for classes that leave `items` alone.
- Object member names are read by the JSON library's own string scanner, not by the patched `parse_string`. Only string values, including a root string, reach the date decoder.

## Model

| member | source | states |
|---|---|---|
| IsoDateTime.FixedTzOffset | jsontree.py:37-47 | offset = sign·(60·HH + MM), with HH from characters 1-2 and MM from the last two characters, both negated after '-'; dst = offset − 60; name is empty |
| IsoDateTime.ColonIsOptional | jsontree.py:38-39 | `±HH:MM` and `±HHMM` give the same timezone |
| IsoDateTime.OffsetRange | jsontree.py:37-44 | no range check: any offset text gives an offset within ±6039 minutes, and `+24:00` is accepted as 1440 |
| IsoDateTime.OffsetTextRoundTrip | jsontree.py:37-47 | the timezone rebuilt from the offset text isoformat writes has the offset that was written, and dst = offset − 60 |
| IsoDateTime.MatchIso | jsontree.py:27-29 | a reported match lays the groups one after another at the start of the string, each in its shape, each optional group as long as the greedy pattern makes it |
| IsoDateTime.MatchIsoComplete | jsontree.py:27-29 | any groups that match the string are exactly the ones MatchIso reports: the match is unique |
| IsoDateTime.MatchedPrefix | jsontree.py:27-29 | the text a match consumed is a prefix of the input: `parsable`, then the offset, then `Z` |
| IsoDateTime.DaysInMonth | jsontree.py:69 | Gregorian month lengths: 28 to 31 days, and 29 exactly for February of a leap year |
| IsoDateTime.Strptime | jsontree.py:69 | a successful parse is a valid, naive datetime |
| IsoDateTime.Recognize | jsontree.py:58-75 | never raises: the result is the input string unchanged, or a valid datetime of a string the pattern matched, with a timezone exactly when the offset group matched |
| IsoDateTime.ZuluIsNeverParsed | jsontree.py:66-74 | a match that includes `Z` always comes back as the unchanged string |
| IsoDateTime.LongFractionIsNeverParsed | jsontree.py:64-74 | a 7-digit fraction matches the pattern but not `%f`, so the string comes back unchanged |
| IsoDateTime.StrptimeOfMatch | jsontree.py:63-69 | without `Z` and with at most 6 fraction digits, strptime reads exactly the fields the match denotes and range-checks them |
| IsoDateTime.RecognizeCharacterized | jsontree.py:58-75 | both directions: the result is a datetime iff the pattern matched without `Z`, with at most 6 fraction digits, and with in-range fields; the datetime is then those fields; every other input comes back unchanged |
| IsoDateTime.TrailingTextIgnored | jsontree.py:59-72 | appending text that is empty or does not begin with a digit, `.`, a sign or `Z` to a string the pattern matches completely leaves the match unchanged, and the result is a datetime for both or for neither, the same one |
| IsoDateTime.MatchOnPrefix | jsontree.py:27-29 | for every string the pattern matches, cutting it at the end of its match gives the same groups, and the same datetime when there is one |
| IsoDateTime.RecognizeParts | jsontree.py:58-75 | a core, an optional fraction of at most 6 digits and an optional offset recognize as the datetime they denote when it is valid, and as the unchanged string otherwise |
| IsoDateTime.OffsetText | jsontree.py:78 | isoformat's offset text for less than a day either way is a 6-character `±HH:MM` the offset group accepts |
| IsoDateTime.Isoformat | jsontree.py:77-78 | fails with ValueError exactly when the attached offset is a day or more either way |
| IsoDateTime.IsoformatRoundTrip | jsontree.py:58-78 | every valid datetime whose timezone, if any, is a fixed offset of less than a day either way (with dst an hour less and no name, as the recognizer builds it) is written by isoformat as a string the recognizer reads back as the same datetime |
| IsoExamples.ExampleOffset | jsontree.py:26 | `2013-04-29T22:45:35.4361-04:00` gives 436100 µs and an offset of −240 minutes (dst −300) |
| IsoExamples.ExampleOffsetWithoutColon | jsontree.py:25 | `…-0400` gives the same datetime as `…-04:00` |
| IsoExamples.ExampleNaive | jsontree.py:24 | `2013-04-29 22:45:35` gives a naive datetime with 0 µs |
| IsoExamples.ExampleZulu | jsontree.py:22 | `2013-04-29T22:45:35.294303Z` comes back as the unchanged string |
| IsoExamples.ExampleOutOfRange | jsontree.py:68-74 | `2013-13-40T99:99:99` matches the pattern but fails the calendar check and comes back unchanged |
| IsoExamples.ExampleNotADate | jsontree.py:59-75 | `hello world` comes back unchanged |
| IsoExamples.ExampleFullDayOffset | jsontree.py:37-47 | `+24:00` is recognized, and isoformat refuses the resulting datetime |
| Tree.PutFacts | jsontree.py:99-101 | storing a key gives it the value and keeps every other key, value and position; a new key goes last |
| Tree.FromPairs | jsontree.py:90-91 | `dict(pairs)` is a valid ordered dictionary that contains every pair's key |
| Tree.FromPairsKeys | jsontree.py:90-91 | the keys of `dict(pairs)` are exactly the pairs' keys, no more and no fewer |
| Tree.FromPairsLastWins | jsontree.py:90-91 | a repeated key keeps the value of its last pair |
| Tree.FromPairsFirstPosition | jsontree.py:90-91 | a key takes its position when its first pair is added |
| Tree.FromDistinctPairs | jsontree.py:185-190 | with no repeated key, the items of `dict(pairs)` are exactly the pairs, in order |
| Tree.ItemsRoundTrip | jsontree.py:232 | rebuilding a dictionary from its items gives the same dictionary |
| Tree.MapperOf | jsontree.py:158-163 | succeeds iff the argument is callable or a Mapping; the callable wins when it is both; otherwise TypeError |
| Tree.MappedJsontreeClass | jsontree.py:103-179 | a fresh class with that mapping, or MapperOf's TypeError with no class built |
| Tree.MappedJsontree | jsontree.py:181-193 | a fresh tree of a fresh mapped class holding `dict(pairs)`, or the factory's TypeError |
| Tree.JsonTree.constructor | jsontree.py:164-166 | a tree of the given class holding `dict(pairs)` |
| Tree.JsonTree.GetItem | jsontree.py:80-91 | a present key returns its value and changes nothing; a missing key is stored last with a fresh, empty tree of the same class, and that tree is returned |
| Tree.JsonTree.SetItem | jsontree.py:99-101 | the new contents are the old ones with the key put in |
| Tree.JsonTree.GetAttr | jsontree.py:167-174 | the name is mapped first; a mapped string key that is an intrinsic member returns the member and changes nothing; any other key, non-string keys included, behaves exactly as GetItem |
| Tree.JsonTree.SetAttr | jsontree.py:175-178 | stores under the mapped key, even an intrinsic one; other keys and their order are unchanged; returns the value |
| Tree.JsonTree.Items | jsontree.py:232 | the stored items, one per key in insertion order with that key's value, and `dict` of them rebuilds the tree; this is the dict method, not the mapped attribute `items` |
| Tree.AttributeRoundTrip | jsontree.py:167-178 | for every mapper, writing an attribute and reading it back stores the value under the mapped key and returns it, unless the mapped key names a class member, which then shadows the stored data |
| TreeExamples.AttributeChain | jsontree.py:85-88 | `mytree.something.there = 3` leaves `mytree['something']['there'] == 3` |
| TreeExamples.ReadTwice | jsontree.py:85-91 | a second read of a key returns the same node the first read created |
| TreeExamples.TableMapping | jsontree.py:115-119 | with table `one→'1'`, `number.one = 'something'` gives `{'1': 'something'}` |
| TreeExamples.IntegerMapping | jsontree.py:144-148 | with table `one→1`, the key stored is the integer 1 |
| TreeExamples.CallableMapping | jsontree.py:131-138 | with the spacify callable, `sm.hello_there` reads 5 back and the only key is `'hello there'` |
| TreeExamples.MappedConstruction | jsontree.py:185-190 | `number.two == 'hello'`, and the items keep their construction order |
| TreeExamples.MappedOntoMember | jsontree.py:171-174 | a name mapped onto an intrinsic member's name reads the member |
| TreeExamples.IntrinsicNameWrite | jsontree.py:93-101 | writing the attribute `keys` stores data, and reading `keys` still returns the method |
| TreeExamples.NotAMapping | jsontree.py:159-162 | an argument that is neither callable nor a Mapping gives TypeError |
| Codec.Encode | jsontree.py:195-209 | the encoder over a whole value. Its behaviour is stated by `Codec.EncodeSucceeds`, `Codec.RenamedItemsRefused` and `Codec.Default` |
| Codec.Default | jsontree.py:205-209 | a datetime becomes the formatter's string, or the formatter's error; any other unknown object is a TypeError |
| Codec.Decode | jsontree.py:211-236 | the decoder with its two hooks. Its behaviour is stated by `Codec.DecodeViaHooks` and `Codec.DecodeBuildsTrees` |
| Codec.DecodeString | jsontree.py:233-236 | a decoded string value is either text or a datetime |
| Codec.ParseStringHook | jsontree.py:233-236 | the index is unchanged; the value is a datetime exactly when the date decoder gives one, and otherwise the text the decoder returned |
| Codec.ParseObjectHook | jsontree.py:230-232 | the index is unchanged; the value is a tree of the configured class holding the same dictionary |
| Codec.DecodeViaHooks | jsontree.py:230-236 | the document decoder applies the string hook to every string value and the object hook to every completed object |
| Codec.EncodeSucceeds | jsontree.py:205-209 | encoding succeeds exactly when no value is of an unknown type, the formatter accepts every datetime, and every non-empty tree's class leaves the attribute `items` unmapped |
| Codec.RenamedItemsRefused | jsontree.py:167-174 | a non-empty tree whose class maps `items` to another key fails to encode with TypeError, whatever it holds |
| Codec.DecodeBuildsTrees | jsontree.py:230-232 | every decoded object, the root and every nested one, is a tree of the configured class with distinct string keys |
| Codec.DecodeEncodeRoundTrip | jsontree.py:230-236 | JSON with no repeated member names and no date-like strings, decoded into a class that leaves `items` unmapped, re-encodes to itself, whatever the formatter |
| Codec.EncodeDecodeRoundTrip | jsontree.py:238-245 | with the default hooks, a cloneable value encodes, and decoding the result gives the value back. A cloneable value's non-empty trees have a class that leaves `items` unmapped |
| Codec.Clone | jsontree.py:238-245 | `clone`: encode, then decode. Its behaviour is stated by `Codec.CloneRoundTrip` and the `CodecExamples` lemmas |
| Codec.CloneRoundTrip | jsontree.py:238-245 | `clone` with the default hooks returns every cloneable value unchanged |
| CodecExamples.CloneIntegerKey | jsontree.py:144-155 | for a source class that leaves `items` unmapped, an integer key comes back from a round trip as its decimal text |
| CodecExamples.CloneDateLikeText | jsontree.py:233-236 | a date-like string comes back from clone as a datetime |
| CodecExamples.CloneFullDayOffset | jsontree.py:238-245 | cloning a datetime with a +24:00 offset fails with ValueError |
| CodecExamples.CloneUnknownObject | jsontree.py:205-209 | cloning an object of unknown type fails with the encoder's TypeError |
| CodecExamples.RepeatedName | jsontree.py:230-232 | a repeated member name keeps the last value at the first position |

## Left out

- `dump`, `dumps`, `load` and `loads` (jsontree.py:247-298) are not modelled. They pass their arguments straight to the standard `json` module, with Python 2/3 branches and stream I/O.
- JSON text is not modelled. Scanning characters, writing text, the serializer's options (indent, separators, ASCII escaping, key sorting, circular-reference checks, NaN policy) and the way the decoder rebinds `parse_object` and `parse_string` are all left out. The codec works on the `Json` value datatype, and the scanner index is a number that the hooks pass through.
- Numbers are integers only; floats are not modelled.
- The encoder's other key types (float, bool, None) and `skipkeys` are not modelled. Keys are strings or integers, and an integer key is written as its decimal text.
- The codec's `Doc` values stand for trees by their class and items, not by object references. Aliasing and cyclic structures passed to the encoder are therefore not modelled.
- The `jsontreecls`, `datetimeencoder` and `datetimedecoder` keyword options are parameters of `Decode`, `Encode` and `Clone`. The keyword-popping code in the codec constructors is not modelled.
- `object.__getattribute__` becomes an abstract set of intrinsic names per class. `DictAttributes` lists the public members of a `defaultdict` for the examples. Generating a new Python class per factory call becomes a fresh `TreeClass` object.
- The internals of `datetime.strptime`, `timedelta` and `tzinfo` are not modelled. They are replaced by the stated ranges, by integer minutes, and by `Isoformat` written out as `isoformat` behaves.
- Python 2's `basestring`, the version strings and the unused format constants `_f` and `_z` are not modelled.
- `\d` is taken to match only ASCII digits.
- Codec.Encode: a mapper that sends `items` onto the name of another member (`values`, say) makes Python call that member and encode whatever it yields; the model reports TypeError for it, as for every other renaming of `items`. The empty tree that Python vivifies under a renamed `items` key before it raises is not modelled, since `Encode` is pure. The text of the TypeError is not Python's.
- A callable mapping may return any hashable value, but the model's keys are strings and integers only. A callable is a Dafny function, so it is pure and stable by construction.
- The tree constructors `jsontree(*args, **kwdargs)` (jsontree.py:90-91) and `mapped_jsontree_class(mapping)(*args, **kwdargs)` (jsontree.py:164-166), and `mapped_jsontree(mapping, *args, **kwdargs)` (jsontree.py:181-193), take one sequence of pairs in the model. A mapping given as the positional argument, keyword arguments, and several positional arguments are not modelled.
- A custom `datetimeencoder` may return any JSON-encodable value, which the encoder then encodes in turn (jsontree.py:205-209). The model's formatter is `DateTime -> Result<string>`: it returns text or an error.
- A custom `datetimedecoder` may return any object. The model's decoder returns `Decoded`, either a datetime or a string.
