# pherialize unserializer, modelled in Dafny

This project models the decoder of pherialize, a Java reader for the output of PHP's
`serialize()`. It also models the default object factory that decoded objects can be built
with. The model is written and proved in Dafny.

The wire format is a sequence of tagged tokens:

| token | meaning |
|---|---|
| `N;` | null |
| `b:0;`, `b:1;` | boolean |
| `i:<int>;` | integer |
| `d:<float>;` | float |
| `s:<len>:"<bytes>";` | string |
| `a:<count>:{<key><value>...}` | array |
| `O:<len>:"<class>":<count>:{...}` | object |
| `R:<n>;` | back-reference to the n-th value decoded so far |

The model covers:

- **The token readers of `Unserializer`** (`Tokens`, `Scalars`):
  - `readNextControlCharacter` and `readExpected`;
  - `readInt` with Java `int` wrap-around;
  - `readExactly`;
  - the raw string reader;
  - one payload reader per scalar tag, including the `d:` scanner exactly as written.
- **The recursive dispatcher** (`Unserializer`): `unserializeObject`, `unserializeArray` and `unserializeSerializable`.
  - The decoder's mutable cursor, its reference history and the `MixedArray`s it fills are a `State` value threaded through the functions.
  - Containers live in an arena and values refer to them by handle. A back-reference is therefore the same container, not a copy.
- **What one decode does to that state** (`HistoryFacts`, `Frames`):
  - which history entries are appended, and when;
  - what the key rule of arrays removes;
  - that older containers are left alone.
- **Trailing input** (`TrailingInput`): bytes after a complete value are never read.
- **A writer for the scalars this decoder reads back** (`Encoding`): null, booleans, 32-bit integers, floats in plain decimal notation and strings shorter than 2^31 bytes, written as `serialize()` writes them. Every token it writes is proved to be read back exactly. Some forms `serialize()` also emits are not read back; they are listed under "Left out".
- **Arrays of scalar pairs** (`ScalarArrays`): they decode to the container that putting the pairs in order yields.
- **`DefaultObjectFactory`** (`ObjectFactory`):
  - package-prefix normalisation and class names;
  - `findField` along the superclass chain;
  - `setProperty` with its static and final checks;
  - `createObject`.

  Reflection is a registry of classes. Each class is listed with its superclass chain.

Modelling conventions:

- Input is a `seq<byte>`, and every reader takes a position and returns the new position.
- Failures are values of an `Error` datatype, one constructor per kind of `UnserializeException` the code raises.
- An object factory is an optional function from a class name and the property container to an instance or a failure.

Behaviour modelled as the code has it:

- **References enter the history.** A back-reference is itself appended to the history once resolved, like every non-array result. Both `R:` and the other scalars go through the common `history.add` of the dispatcher.
- **The key rule removes the last entry, not the key.** After a key, the decoder removes the last history entry. Which entry that is depends on the kind of key:
  - a scalar or a back-reference: the key itself, so the key leaves no trace (`ScalarKeyLeavesNoTrace`);
  - an array with no pairs (`a:0:{}`): the array itself, entered before its (empty) body (`EmptyArrayDecodes`);
  - an array with pairs: the last entry its body appended; the array stays in the history at the slot it entered before its body;
  - an object: the finished object, appended last; the slot its property container took and the property values stay.

  The model keeps the code's rule.
- **`-` is accepted anywhere in a float.** The float scanner never clears its `first` flag, so it accepts a `-` at any position. `Double.parseDouble` then rejects a lexeme such as `1-2`. Both steps are modelled (`DecodeDoubleInnerMinus`).

## Model

| member | source | states |
|---|---|---|
| Tokens.ReadByte | src/main/java/com/github/pherialize/Unserializer.java:111-116 | one byte is read exactly when input is left, and it is the byte at the cursor; at the end of the data the read fails with end-of-data |
| Tokens.ReadExpected | src/main/java/com/github/pherialize/Unserializer.java:122-126 | succeeds exactly when the next byte is the expected one and consumes only it; otherwise fails with end-of-data or with an unexpected-character error naming both bytes |
| Tokens.ReadInt | src/main/java/com/github/pherialize/Unserializer.java:132-175 | a successful read ends just after the terminator, inside the input, with a 32-bit value |
| Tokens.ReadIntComplete | src/main/java/com/github/pherialize/Unserializer.java:132-175 | every optional '-', digit string and terminator is read to the signed decimal value of the digits, wrapped to a Java int, consuming exactly the token |
| Tokens.ReadIntSound | src/main/java/com/github/pherialize/Unserializer.java:132-175 | whatever is read as an integer is an optional leading '-', then only digits, then the terminator, and its value is the signed value of those digits |
| Tokens.ReadIntLoopComplete | src/main/java/com/github/pherialize/Unserializer.java:141-170 | from any point inside a run of digits the loop accumulates the rest and ends after the terminator with the signed wrapped value of the whole run |
| Tokens.ReadIntLoopSound | src/main/java/com/github/pherialize/Unserializer.java:141-170 | when the loop succeeds, only digits stood between the start and the terminator, and the result is their signed value |
| Tokens.Take | src/main/java/com/github/pherialize/Unserializer.java:182-203 | `n` bytes are taken exactly when `n` is not negative and that many remain; they are the next `n` bytes of the input, never fewer |
| Tokens.ReadExactly | src/main/java/com/github/pherialize/Unserializer.java:182-203 | the retry loop agrees with `Take` however many bytes the source hands out on each read |
| Tokens.ReadRawString | src/main/java/com/github/pherialize/Unserializer.java:260-271 | a raw string that is read starts with a length field that reads as the number of its bytes, followed by the opening quote; its content is exactly the bytes between that quote and the closing quote |
| Tokens.RawStringRoundTrip | src/main/java/com/github/pherialize/Unserializer.java:260-271 | a byte length, ':', and that many bytes between quotes are read back as exactly those bytes |
| Tokens.RawStringWrongLength | src/main/java/com/github/pherialize/Unserializer.java:264-268 | a length field shorter than the quoted content, where the byte just past the declared length is not '"', makes the closing-quote check fail naming that byte (when that byte is '"' the shorter string is accepted) |
| Scalars.DecodeStringSound | src/main/java/com/github/pherialize/Unserializer.java:280-289 | whatever `s:` accepts is ':', a length field reading as the byte length of the value, the value's bytes between quotes, and ';' |
| Scalars.DecodeStringToken | src/main/java/com/github/pherialize/Unserializer.java:280-289 | `s:` followed by a raw string and ';' yields that string and consumes the whole payload |
| Scalars.DecodeIntegerToken | src/main/java/com/github/pherialize/Unserializer.java:298-304 | `i:` yields the signed value of its digits as a Java int |
| Scalars.DecodeBooleanToken | src/main/java/com/github/pherialize/Unserializer.java:380-389 | `b:` accepts exactly the integers 0 and 1, as false and true, and fails naming any other value |
| Scalars.DecodeNull | src/main/java/com/github/pherialize/Unserializer.java:398-402 | `N` succeeds exactly when ';' follows, yielding null and consuming the ';' |
| Scalars.DecodeReference | src/main/java/com/github/pherialize/Unserializer.java:366-371 | a resolved reference is one of the values already in the history |
| Scalars.DecodeReferenceToken | src/main/java/com/github/pherialize/Unserializer.java:366-371 | `R:n;` is the n-th history entry counting from 1; 0, a negative index or one past the history fails naming the index |
| Scalars.DecodeScalar | src/main/java/com/github/pherialize/Unserializer.java:217-254 | only the tags N, b, i, d, s and R are read by a payload reader, and every tag other than these and `a` and `O` fails as an unknown type |
| Scalars.ScanDoubleComplete | src/main/java/com/github/pherialize/Unserializer.java:321-354 | every lexeme of digits, '-' and at most one '.' is scanned up to its ';' and kept whole |
| Scalars.ScanDoubleSound | src/main/java/com/github/pherialize/Unserializer.java:321-354 | whatever the scanner accepts is exactly the bytes before the ';', made only of digits, '-' and at most one '.' |
| Scalars.DoubleLexemeIff | src/main/java/com/github/pherialize/Unserializer.java:325-355 | the scanner followed by `Double.parseDouble` accepts exactly an optional leading '-', then digits with at most one '.' and at least one digit |
| Scalars.DecodeDoubleSound | src/main/java/com/github/pherialize/Unserializer.java:313-356 | whatever `d:` accepts is ':', a lexeme of that float grammar and ';', and the value is that lexeme |
| Scalars.DecodeDoubleComplete | src/main/java/com/github/pherialize/Unserializer.java:313-356 | every lexeme of that float grammar is accepted by `d:` and kept as the value |
| Scalars.DecodeDoubleInnerMinus | src/main/java/com/github/pherialize/Unserializer.java:325-355 | `d:1-2;` passes the scanner because its sign flag is never cleared, and then fails as a malformed number |
| Scalars.DecodeDoubleSecondDot | src/main/java/com/github/pherialize/Unserializer.java:329-352 | a '.' met after scanned digits, '-' and '.' that already include a '.' fails `d:` as an unexpected '.' |
| Unserializer.DecodeValue | src/main/java/com/github/pherialize/Unserializer.java:212-258 | a decoded value advances the cursor and the history and never removes a container |
| Unserializer.DecodeArray | src/main/java/com/github/pherialize/Unserializer.java:413-438 | an array is a new container, the next handle of the arena, and the decode advances the cursor and the history and ends on the required closing '}' |
| Unserializer.DecodeObject | src/main/java/com/github/pherialize/Unserializer.java:440-455 | an object advances the cursor and the history and keeps every container |
| Unserializer.Unserialize | src/main/java/com/github/pherialize/Unserializer.java:212-258 | a successful decode consumes at least one byte and no more than the input |
| HistoryFacts.ScalarAppendsOnce | src/main/java/com/github/pherialize/Unserializer.java:217-257 | unfolding of the dispatch for a scalar tag: a scalar or a back-reference is appended to the history exactly once, after its payload is read, and the containers are unchanged; a payload failure is the decode's failure |
| HistoryFacts.UnknownTagFails | src/main/java/com/github/pherialize/Unserializer.java:251-253 | a tag outside N b i d s a O R fails as an unknown type naming the tag |
| HistoryFacts.EndOfDataFails | src/main/java/com/github/pherialize/Unserializer.java:113-114 | decoding at the end of the data fails with end-of-data |
| HistoryFacts.ResultPlaceInHistory | src/main/java/com/github/pherialize/Unserializer.java:240-257 | every result except an array's is the last history entry on return; an array is the new container and sits right after the history it found |
| HistoryFacts.EmptyArrayDecodes | src/main/java/com/github/pherialize/Unserializer.java:413-437 | `a:0:{}` decodes to a new empty container at the next arena slot, reads exactly six bytes and leaves that container as the last history entry, so as a key it is what the key rule removes |
| HistoryFacts.ScalarKeyLeavesNoTrace | src/main/java/com/github/pherialize/Unserializer.java:431-432 | after a scalar key, removing the last history entry restores the history as it was before the key |
| HistoryFacts.ScalarPair | src/main/java/com/github/pherialize/Unserializer.java:429-435 | a pair with a scalar key and a scalar value puts the pair into the container, appends only the value to the history and continues after the value |
| HistoryFacts.EntriesRound | src/main/java/com/github/pherialize/Unserializer.java:429-435 | unfolding of one loop round: once a key is read, the value is read from the state the key left minus its last history entry, then put; a failure of the value is the loop's failure |
| HistoryFacts.ObjectWithoutFactory | src/main/java/com/github/pherialize/Unserializer.java:440-452 | without a factory an object is its property container with "class" mapped to the class name, entered in the history both before its properties and at the end |
| HistoryFacts.ObjectPrelude | src/main/java/com/github/pherialize/Unserializer.java:440-444 | `O:` with a raw string reads the class name and ends right after it |
| HistoryFacts.ObjectWithFactory | src/main/java/com/github/pherialize/Unserializer.java:440-455 | with a factory an object is whatever the factory builds from the class name and the decoded properties, appended to the history; a factory failure is the decode's failure |
| Frames.ValueFrame | src/main/java/com/github/pherialize/Unserializer.java:212-258 | a decode keeps the history it found as a prefix and leaves every existing container unchanged |
| Frames.TaggedFrame | src/main/java/com/github/pherialize/Unserializer.java:218-257 | each arm of the dispatch keeps the history it found as a prefix and leaves every existing container unchanged |
| Frames.ArrayFrame | src/main/java/com/github/pherialize/Unserializer.java:413-438 | an array keeps older history and containers and enters itself right after the history it found |
| Frames.EntriesFrame | src/main/java/com/github/pherialize/Unserializer.java:429-435 | the entry loop of a container changes no other container and keeps the history it found as a prefix |
| Frames.EntriesSize | src/main/java/com/github/pherialize/Unserializer.java:429-435 | the entry loop adds at most one entry to its container per pair it reads |
| Frames.ArrayShape | src/main/java/com/github/pherialize/Unserializer.java:413-438 | an accepted array is ':', a count, ':{', entries and a closing '}' that ends the decode, and its container holds at most as many entries as the count (none for a count of zero or below) |
| Frames.ObjectFrame | src/main/java/com/github/pherialize/Unserializer.java:440-455 | an object leaves the older history and containers alone; only its own new container gets the "class" entry |
| TrailingInput.UnserializeIgnoresTrailing | src/main/java/com/github/pherialize/Unserializer.java:212-258 | bytes after the first complete value change neither the result nor how much was consumed |
| TrailingInput.ValueExtends | src/main/java/com/github/pherialize/Unserializer.java:212-258 | a value decoded from some input decodes identically from that input followed by anything |
| TrailingInput.ReadIntLoopExtends | src/main/java/com/github/pherialize/Unserializer.java:132-175 | a successful integer read gives the same result on any extension of the input |
| TrailingInput.TakeExtends | src/main/java/com/github/pherialize/Unserializer.java:182-203 | a successful exact read gives the same bytes on any extension of the input |
| TrailingInput.ReadRawStringExtends | src/main/java/com/github/pherialize/Unserializer.java:260-271 | a successful raw string read gives the same result on any extension of the input |
| TrailingInput.ScanDoubleExtends | src/main/java/com/github/pherialize/Unserializer.java:321-354 | a successful float scan gives the same lexeme and end on any extension of the input |
| TrailingInput.ScalarExtends | src/main/java/com/github/pherialize/Unserializer.java:217-254 | a successful scalar payload read gives the same result on any extension of the input |
| TrailingInput.ArrayExtends | src/main/java/com/github/pherialize/Unserializer.java:413-438 | a successful array decode gives the same result on any extension of the input |
| TrailingInput.EntriesExtends | src/main/java/com/github/pherialize/Unserializer.java:429-435 | a successful entry loop gives the same result on any extension of the input |
| TrailingInput.ObjectExtends | src/main/java/com/github/pherialize/Unserializer.java:440-455 | a successful object decode gives the same result on any extension of the input |
| Encoding.DecodeEncoded | src/main/java/com/github/pherialize/Unserializer.java:217-257 | wherever a scalar's token stands, the decoder reads exactly that token, yields the scalar and appends it to the history once |
| Encoding.UnserializeEncoded | src/main/java/com/github/pherialize/Unserializer.java:212-258 | a scalar's token followed by any bytes decodes to that scalar, consuming exactly the token and creating no container |
| Encoding.EncodeInjective | src/main/java/com/github/pherialize/Unserializer.java:212-258 | different scalars have different tokens, because the decoder tells them apart |
| Encoding.PayloadDecodes | src/main/java/com/github/pherialize/Unserializer.java:217-254 | the payload after a scalar's tag decodes to the scalar and ends where its token ends |
| ScalarArrays.TokenReads | src/main/java/com/github/pherialize/Unserializer.java:217-257 | a scalar token is read as its scalar whatever the history and containers, appending it once and leaving the containers alone |
| ScalarArrays.EntriesRun | src/main/java/com/github/pherialize/Unserializer.java:429-435 | pairs read one after the other are put into the container in order, and only their values stay in the history |
| ScalarArrays.ArrayReads | src/main/java/com/github/pherialize/Unserializer.java:413-438 | an array whose count matches its pairs decodes to a new container filled by putting the pairs in order; the history gains the container, then the values, and no key |
| ScalarArrays.PutAllDistinct | src/main/java/com/github/pherialize/Unserializer.java:429-435 | when the keys are pairwise different and new, putting the pairs in order appends them all in order |
| ScalarArrays.PutAllLookup | src/main/java/com/github/pherialize/Unserializer.java:429-435 | after the pairs are put, every key holds the value of its last pair, and every other key keeps what it held |
| ScalarArrays.DistinctKeysIff | src/main/java/com/github/pherialize/Unserializer.java:429-435 | the recursive "keys are distinct" predicate holds exactly when no key occurs at two positions |
| Values.PutLookup | src/main/java/com/github/pherialize/Unserializer.java:434 | after a put the key holds the new value; a new key goes to the end; an existing key has its entry replaced where it stands, the other entries unchanged; every other key keeps its value |
| Values.LookupFinds | src/main/java/com/github/pherialize/Unserializer.java:434 | a key is found exactly when some entry has it, and then with the value of the first entry having it |
| ObjectFactory.NormalizePrefix | src/main/java/com/github/pherialize/factory/DefaultObjectFactory.java:14-23 | no prefix and the empty prefix mean none; any other prefix keeps its bytes and ends in exactly one added or existing '.' |
| ObjectFactory.NormalizePrefixIdempotent | src/main/java/com/github/pherialize/factory/DefaultObjectFactory.java:14-23 | normalising a normalised prefix changes nothing |
| ObjectFactory.JavaClassName | src/main/java/com/github/pherialize/factory/DefaultObjectFactory.java:25-29 | the Java class name is the PHP name, preceded by the prefix when there is one |
| ObjectFactory.DeclaredField | src/main/java/com/github/pherialize/factory/DefaultObjectFactory.java:56 | the field a class declares under a name, or none when it declares no field of that name |
| ObjectFactory.FindFieldFromNearest | src/main/java/com/github/pherialize/factory/DefaultObjectFactory.java:52-63 | walking up from a class, the search finds the nearest declaring class, or nothing exactly when no class above declares the name |
| ObjectFactory.FindFieldNearest | src/main/java/com/github/pherialize/factory/DefaultObjectFactory.java:49-65 | a field is found exactly when some class of the chain declares it; it is the nearest one's; otherwise the failure names the first class of the chain (the instance's own class whenever the registry lists each class's chain starting with that class) |
| ObjectFactory.SetProperty | src/main/java/com/github/pherialize/factory/DefaultObjectFactory.java:37-47 | a property is set exactly when its field is found and is neither static nor final; otherwise its failure is that of the check |
| ObjectFactory.SetPropertyAssigns | src/main/java/com/github/pherialize/factory/DefaultObjectFactory.java:37-47 | a set property writes the slot of the nearest declaring class's non-static non-final field and leaves every other slot alone |
| ObjectFactory.SetPropertyRefuses | src/main/java/com/github/pherialize/factory/DefaultObjectFactory.java:39-42 | a missing field, a static field and a final field fail in that order of checks, naming the class and the key |
| ObjectFactory.SetAll | src/main/java/com/github/pherialize/factory/DefaultObjectFactory.java:74-80 | a successful loop keeps the class and every existing slot, and every property was settable |
| ObjectFactory.SetAllOkIff | src/main/java/com/github/pherialize/factory/DefaultObjectFactory.java:74-80 | all properties go in exactly when every one of them is settable |
| ObjectFactory.SetAllWrites | src/main/java/com/github/pherialize/factory/DefaultObjectFactory.java:74-80 | after the loop every property's slot holds the value of the last property written to it, and a slot no property writes keeps its value |
| ObjectFactory.SetAllOnlyWrites | src/main/java/com/github/pherialize/factory/DefaultObjectFactory.java:74-80 | every slot the loop adds is the target of some property |
| ObjectFactory.NewConfig | src/main/java/com/github/pherialize/factory/DefaultObjectFactory.java:14-23 | the constructor stores the prefix normalised: none exactly for no prefix or the empty one, and otherwise a prefix that normalising leaves unchanged |
| ObjectFactory.NewConfigClassName | src/main/java/com/github/pherialize/factory/DefaultObjectFactory.java:14-29 | a factory built with a prefix loads, for a PHP class name, that name alone when the prefix is absent or empty, otherwise prefix and name with a '.' between them added only when the prefix does not end in one |
| ObjectFactory.CreateObject | src/main/java/com/github/pherialize/factory/DefaultObjectFactory.java:67-89 | every failure is the single wrapped creation failure, and a created object has the prefixed class name |
| ObjectFactory.DecodeWithDefaultFactory | src/main/java/com/github/pherialize/Unserializer.java:440-455 | with the default factory, an object decodes exactly when the factory creates it from the class name and the decoded properties; the result is that instance, of the prefixed class, and a failure is the factory's wrapped failure |
| ObjectFactory.CreateObjectIff | src/main/java/com/github/pherialize/factory/DefaultObjectFactory.java:67-89 | an object is created exactly when its class is registered and instantiable and every property names a settable field; it then holds exactly the written slots, each with its last value |

## Left out

- **Byte sources** (`Source`, `ByteArraySource`, `InputStreamSource`): the input is a byte sequence. The only behaviour of a source that matters, how many bytes one `read` delivers, is a parameter of `ReadExactly`.
- **Charset decoding** of strings: a string value keeps its raw bytes. The length field counts bytes, as in the code.
- **The number of a float.** `Double.parseDouble` is modelled only as acceptance, on the bytes the scanner lets through. The value keeps the lexeme.
- **`Mixed` and `MixedArray`** (`Mixed.java` and `MixedArray.java` are not part of this model):
  - `put` is modelled as an insertion-ordered map with structural key equality;
  - `Mixed.toString()` of a property key is a parameter of the factory configuration;
  - `toObject()` is not modelled: the factory stores the decoded value itself;
  - `unserializeArray().toArray()` in `unserializeSerializable` is taken to return the very `MixedArray` that entered the history, so the "class" entry added to it is visible through that history slot.
- ObjectFactory.CreateObject: a null key or value (from `N;`) is stored and set like any other value. In the code, `createObject` casts and dereferences every key and value, so the outcome for a null depends on whether `MixedArray.put` stores a Java `null` or wraps it. `MixedArray.java` is not part of this model, so this is not decided here.
- **A negative array count** reads no pairs. The `MixedArray(int)` constructor, which may reject it, is not visible.
- **Exceptions.** Exception classes and message texts become constructors of `Error` carrying the data the messages show. A negative string length is a failure of its own, standing for the `NegativeArraySizeException` of `new byte[n]`.
- **Reflection beyond lookup and modifiers:**
  - the type check of `Field.set`;
  - `setAccessible`;
  - constructor exceptions other than a missing class or a non-instantiable one.
- **`ObjectFactory` as an interface:** it is a function type. Only the default factory is modelled.
- **Other parts of the decoder:**
  - the `Unserializer` constructors and `setObjectFactory`: the factory is an argument of each decode;
  - stack depth of the recursion;
  - the re-use of one decoder instance across several decodes.
- ScalarArrays.ArrayReads: the byte-level round trip of a whole written array is not proved. It is proved for every scalar token (`TokenReads`, `DecodeEncoded`) and for every array whose pairs are read one after the other (`ArrayReads`). The pairs must be shown to read, for instance with `TokenReads`.
- HistoryFacts.ScalarKeyLeavesNoTrace: proved for scalar keys only. For other keys the rule removes the entry described above. That is the key itself for an empty array and for an object, although an object's property container keeps the slot it entered before its properties; for an array with pairs it is the last entry the body appended, and the array stays.
- **`serialize()` forms the decoder does not read**, so they are outside the writer of `Encoding`:
  - floats in exponent notation (`d:1.0E+25;`) and `d:INF;`, `d:NAN;`, `d:-INF;`: the scanner rejects the letters;
  - integers outside 32 bits, which a 64-bit PHP writes: `readInt` wraps them as a Java `int` does, so they are not read back unchanged.
