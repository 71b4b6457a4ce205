# STINGER support libraries: verified models

This project models the hard cores of the libraries that STINGER ships and
proves what they promise, in Dafny.

| files | what they model |
|---|---|
| `Wrappers`, `Bytes`, `BsonFormat`, `BsonBuilder`, `BsonIterator`, `BsonRoundTrip`, `WireFormat` | the BSON buffer of `bson.c`: appends, nested documents whose lengths are patched when they close, growth, the iterator, and the round trip through both; the format is that of bsonspec.org |
| `Encoding` | the UTF-8 check of `encoding.c`, against section 4 of RFC 3629 |
| `Bcon`, `BconBuild` | the BCON state machine of `bcon.c` with its two stacks, against the recursive encoder it replaces, and run on a buffer |
| `Probing`, `KvStore`, `IntKeys`, `IntHashMap`, `IntHashSet` | open addressing with tombstones and rehashing, against plain maps and sets over whole runs |
| `KvList` | the doubly linked list of `kv_store.c`, against a sequence |
| `Md5` | streaming MD5, against sections 3.1 to 3.5 of RFC 1321 |
| `EditDistance`, `EditOptimality`, `DiffLines`, `UnifiedDiff` | googletest's edit script, when it is the cheapest one, and the unified diff made from it |
| `SimpleRegex` | googletest's simple regular expressions |
| `TestFilter`, `Shuffle`, `TestOrder`, `TestProgram` | googletest's test order: death tests first, shuffled and restored, over whole programs |

`dafny verify dfyconfig.toml` checks the whole project.

How the code is modelled:

- Objects that the code updates are classes with the same fields; ghost fields
  hold the abstract value (a document, a map, a sequence) that `Valid()` ties
  to them. C buffers of a fixed size are arrays. Vectors and lists that grow
  are sequence fields.
- Hash functions, the MD5 compression step, the random source and the arithmetic of the
  edit costs are arbitrary: function parameters, or sequences of choices. So the results
  hold for all of them, and those on edit scripts and diffs for doubles with their
  rounding. Results that need costs without rounding say so.
- `0.7f` is 11744051 / 2^24 exactly, and a double converted to an int out of
  range gives INT_MIN.
- `kv_store.c` is modelled as built by default, without SAFETY.

Where the code and its documentation or intent differ, the model follows the code:

- Full match of a simple regex that ends in an escaped dollar lacks its end
  anchor (`SimpleRegex.FullMatchExact`).
- `kv_list_equal` takes a prefix for equal (`KvList.ListsEqual`, `KvList.EmptyListEqualsAny`).
- The UTF-8 check lets surrogates through, and any second byte up to 0x8F after 0xF4
  (`Encoding.LooseStringsExist`).
- The edit script is not always a cheapest one, although the code calls it optimal
  (`EditDistance.NotMinimal`, `EditOptimality.CheapestExactly`).
- A diff with no context prints nothing at all (`UnifiedDiff.CreateUnifiedDiff`).
- The read-only test case accessor ignores the shuffled order
  (`TestOrder.UnitTestImpl.AccessorsAgree`).
- A sub-document left open is not reported incomplete by the BCON loop (`Bcon.LeftOpen`);
  only finishing the buffer then fails (`BconBuild.FromBcon`).
- The hash set reports its sentinel as present (`IntHashSet.IntSet.Exists`).
- Tombstone reuse in `int_hm_seq_insert` never happens
  (`IntHashMap.IntMap.ProbeForInsert`), and its element count also counts overwrites; `kv_store_set` never lowers the removed count when it reuses a
  tombstone. The free slot is proved in spite of this.

## Model

| member | source | states |
|---|---|---|
| `Bytes.Signed32` | lib/mongo_c_driver/src/bson.c:685-693 | an int written as four little-endian bytes reads back as itself |
| `Bytes.Signed64` | lib/mongo_c_driver/src/bson.c:695-698 | an int64 written as eight little-endian bytes reads back as itself |
| `BsonFormat.EncodeListAt` | lib/mongo_c_driver/src/bson.c:331-399 | element k of any document lies right after the encodings of the k elements before it |
| `BsonFormat.DocumentSize` | lib/mongo_c_driver/src/bson.c:78-82 | the leading length field of a document that fits an int is its exact size |
| `BsonFormat.AddBuilding` | lib/mongo_c_driver/src/bson.c:776-872 | appending an element to a buffer that lays out a stack of open sub-documents lays out that stack with the element added, the open length fields where they were |
| `BsonFormat.OpenBuilding` | lib/mongo_c_driver/src/bson.c:1023-1037 | header and zero length lay out one more open sub-document, its length field at the pushed position |
| `BsonFormat.CloseBuilding` | lib/mongo_c_driver/src/bson.c:1039-1056 | terminator and patched length lay out the stack with its top closed into a finished element, whatever else is still open |
| `BsonFormat.FinishBuilding` | lib/mongo_c_driver/src/bson.c:734-754 | with nothing open, terminator and patched length make exactly the encoding of the element list |
| `BsonFormat.OpenFields` | lib/mongo_c_driver/src/bson.c:1023-1029 | at any depth every open length field is inside the written bytes, behind the one before it, and still zero |
| `WireFormat.IntBytes` | lib/mongo_c_driver/src/bson.c:685-693 | an int is four bytes, low-order first |
| `WireFormat.DoubleBytes` | lib/mongo_c_driver/src/bson.c:816-821 | the bytes of a small double element: type 01 |
| `WireFormat.TextBytes` | lib/mongo_c_driver/src/bson.c:854-896 | the bytes of small string, code, symbol and regex elements: types 02, 0D, 0E, 0B |
| `WireFormat.NestedBytes` | lib/mongo_c_driver/src/bson.c:898-973 | the bytes of an empty object, an empty array and code with an empty scope: types 03, 04, 0F |
| `WireFormat.BinaryBytes` | lib/mongo_c_driver/src/bson.c:922-940 | the bytes of small binary elements, the old subtype with its inner length: type 05 |
| `WireFormat.BareBytes` | lib/mongo_c_driver/src/bson.c:830-852 | the bytes of undefined, null, maxkey and minkey elements: types 06, 0A, 7F, FF |
| `WireFormat.OidBytes` | lib/mongo_c_driver/src/bson.c:942-947 | the bytes of an object id element: type 07 |
| `WireFormat.BoolBytes` | lib/mongo_c_driver/src/bson.c:823-828 | the bytes of both bool elements: type 08 |
| `WireFormat.LongBytes` | lib/mongo_c_driver/src/bson.c:809-814 | the bytes of small date and long elements: types 09, 12 |
| `WireFormat.IntElementBytes` | lib/mongo_c_driver/src/bson.c:802-807 | the bytes of a positive and a negative int element: type 10 |
| `WireFormat.TimestampBytes` | lib/mongo_c_driver/src/bson.c:996-1011 | the bytes of a timestamp element, increment first: type 11 |
| `WireFormat.ArrayDocumentBytes` | lib/mongo_c_driver/src/bson.c:1031-1056 | the thirteen bytes of a document that holds an empty array |
| `WireFormat.NestedDocumentBytes` | lib/mongo_c_driver/src/bson.c:1023-1056 | the sixteen bytes of a document one level deep, both lengths included |
| `WireFormat.ReportedTypes` | lib/mongo_c_driver/inc/bson.h:107-129 | the type the iterator reports for every kind of value, minkey as the signed char -1 |
| `BsonBuilder.Bson.constructor` | lib/mongo_c_driver/src/bson.c:617-633 | a new buffer of any size from 4 bytes up is a valid empty document with its 4 length bytes reserved |
| `BsonBuilder.Bson.EnsureSpace` | lib/mongo_c_driver/src/bson.c:700-732 | succeeds exactly when the grown size (3/2, or INT_MAX when that overflows, out-of-range casts giving INT_MIN) is possible and the data owned; then position plus request fits, the size is that exact one and the written prefix survives relocation; each failure sets its error flag and moves nothing |
| `BsonBuilder.Bson.AppendBytes` | lib/mongo_c_driver/src/bson.c:675-698 | the written bytes grow by exactly the argument |
| `BsonBuilder.Bson.AppendEstart` | lib/mongo_c_driver/src/bson.c:776-796 | writes type and name exactly when the document is open, there is room for them and the payload, and the name is accepted; otherwise writes nothing; states the error flags after success and after each of the three failures |
| `BsonBuilder.Bson.AppendElementBytes` | lib/mongo_c_driver/src/bson.c:776-828 | the contract shared by all appends: succeeds exactly under the stated conditions, adds exactly the element to the document, keeps the layout invariant, and on failure changes nothing of the document |
| `BsonBuilder.Bson.AppendInt` | lib/mongo_c_driver/src/bson.c:802-807 | adds exactly an int element |
| `BsonBuilder.Bson.AppendLong` | lib/mongo_c_driver/src/bson.c:809-814 | adds exactly a long element |
| `BsonBuilder.Bson.AppendDouble` | lib/mongo_c_driver/src/bson.c:816-821 | adds exactly a double element (eight opaque bytes) |
| `BsonBuilder.Bson.AppendBool` | lib/mongo_c_driver/src/bson.c:823-828 | adds exactly a bool element |
| `BsonBuilder.Bson.AppendNull` | lib/mongo_c_driver/src/bson.c:830-834 | adds exactly a null element |
| `BsonBuilder.Bson.AppendUndefined` | lib/mongo_c_driver/src/bson.c:836-840 | adds exactly an undefined element |
| `BsonBuilder.Bson.AppendMaxKey` | lib/mongo_c_driver/src/bson.c:842-846 | adds exactly a maxkey element |
| `BsonBuilder.Bson.AppendMinKey` | lib/mongo_c_driver/src/bson.c:848-852 | adds exactly a minkey element |
| `BsonBuilder.Bson.AppendStringBase` | lib/mongo_c_driver/src/bson.c:854-896 | adds exactly a string, symbol or code element, refused when its text is not accepted or its length does not fit an int |
| `BsonBuilder.Bson.AppendBinary` | lib/mongo_c_driver/src/bson.c:922-940 | adds exactly a binary element, the old subtype with its inner length |
| `BsonBuilder.Bson.AppendOid` | lib/mongo_c_driver/src/bson.c:942-947 | adds exactly an object id element |
| `BsonBuilder.Bson.AppendRegexBytes` | lib/mongo_c_driver/src/bson.c:955-965 | writes the element exactly when name and pattern are accepted; a bad pattern leaves a stray header and the NotUtf8 flag |
| `BsonBuilder.Bson.AppendRegex` | lib/mongo_c_driver/src/bson.c:955-965 | with an accepted pattern adds exactly a regex element; otherwise fails and, where the header went in, flags NotUtf8, which Finish refuses |
| `BsonBuilder.Bson.AppendTimestamp` | lib/mongo_c_driver/src/bson.c:996-1011 | adds exactly a timestamp element, increment before time |
| `BsonBuilder.Bson.AppendDate` | lib/mongo_c_driver/src/bson.c:1013-1017 | adds exactly a date element |
| `BsonBuilder.Bson.AppendCodeWScope` | lib/mongo_c_driver/src/bson.c:898-916 | adds exactly a code-with-scope element around a finished document |
| `BsonBuilder.Bson.AppendBson` | lib/mongo_c_driver/src/bson.c:967-973 | adds a finished document whole as an object element |
| `BsonBuilder.Bson.AppendCopied` | lib/mongo_c_driver/src/bson.c:975-984 | copies an element byte for byte, checking nothing but space |
| `BsonBuilder.Bson.FinishedData` | lib/mongo_c_driver/src/bson.c:117-140 | reads back exactly the encoding of the elements appended |
| `BsonBuilder.Bson.GrowStack` | lib/mongo_c_driver/src/bson.c:643-673 | the move from no cells to 32 local ones to doubling heap blocks keeps every stacked position |
| `BsonBuilder.Bson.PushPosition` | lib/mongo_c_driver/src/bson.c:1025-1026 | the position is pushed on top of the others, growing the stack when full |
| `BsonBuilder.Bson.StartBytes` | lib/mongo_c_driver/src/bson.c:1023-1037 | writes header and zero length and stacks the position of the length, or changes nothing |
| `BsonBuilder.Bson.StartSubdocument` | lib/mongo_c_driver/src/bson.c:1023-1037 | opens a sub-document, keeping the layout invariant; succeeds exactly when open, with room for length and terminator, and the name accepted |
| `BsonBuilder.Bson.Terminate` | lib/mongo_c_driver/src/bson.c:1039-1056 | writes the terminator and patches the true length at the start position, with both failure cases |
| `BsonBuilder.Bson.FinishSubdocument` | lib/mongo_c_driver/src/bson.c:1039-1056 | closes the innermost open sub-document into a finished element; fails exactly when none is open or there is no room |
| `BsonBuilder.Bson.Finish` | lib/mongo_c_driver/src/bson.c:734-754 | OK exactly when no invalid text was flagged, nothing is open and the end fits; then the bytes are the encoding of the document; FATAL exactly when sub-documents are open |
| `BsonIterator.ValueSizeHolds` | lib/mongo_c_driver/src/bson.c:340-391 | for every type the size the iterator skips is the size of the encoded value |
| `BsonIterator.ElementHolds` | lib/mongo_c_driver/src/bson.c:401-414 | type byte, name and value position are read where the encoding put them |
| `BsonIterator.ListHolds` | lib/mongo_c_driver/src/bson.c:331-399 | after k elements the cursor is at element k, or at the terminator after the last |
| `BsonIterator.Iterator.constructor` | lib/mongo_c_driver/src/bson.c:308-316 | a new iterator stands before the first element |
| `BsonIterator.Iterator.Next` | lib/mongo_c_driver/src/bson.c:331-399 | moves to exactly the next element and returns its type; stays at the terminator and returns 0 exactly there |
| `BsonIterator.Iterator.Type` | lib/mongo_c_driver/src/bson.c:401-404 | the type of the element the cursor is at, or EOO |
| `BsonIterator.Iterator.Key` | lib/mongo_c_driver/src/bson.c:406-408 | the name of the element the cursor is at |
| `BsonIterator.Iterator.Value` | lib/mongo_c_driver/src/bson.c:410-414 | the position of exactly that element's encoded value |
| `BsonIterator.Find` | lib/mongo_c_driver/src/bson.c:318-325 | stops at the first element of that name, or at the end if there is none |
| `BsonIterator.ReadLeaf` | lib/mongo_c_driver/src/bson.c:418-595 | the typed accessors give back the value that was encoded |
| `BsonIterator.ReadValue` | lib/mongo_c_driver/src/bson.c:597-607 | sub-objects, arrays and scopes are read back by sub-iterators, to any depth |
| `BsonIterator.ReadDocument` | lib/mongo_c_driver/src/bson.c:214-294 | walking a document with iterators and sub-iterators yields exactly its tree of elements, in order |
| `BsonRoundTrip.BuildElements` | lib/mongo_c_driver/src/bson.c:802-1056 | a list of elements, each by the call for its type, is added in order; every buildable list of safe size succeeds, from any state of the buffer |
| `BsonRoundTrip.BuildSubdocument` | lib/mongo_c_driver/src/bson.c:1023-1056 | start, contents, finish add exactly the sub-document, at any nesting depth |
| `BsonRoundTrip.RoundTrip` | lib/mongo_c_driver/src/bson.c:331-414 | for every tree of typed elements, building it with the appends and Finish and walking it back gives the same tree; every buildable tree up to 2^30 - 1 bytes does build |
| `BsonRoundTrip.AppendElement` | lib/mongo_c_driver/src/bson.c:975-994 | appends exactly the element an iterator is at, its end found by stepping a copy |
| `BsonRoundTrip.CopyElements` | lib/mongo_c_driver/src/bson.c:975-994 | walking a document and appending every element adds all of them in order |
| `BsonRoundTrip.CopyDocument` | lib/mongo_c_driver/src/bson.c:331-399 | element-wise copying of a finished document rebuilds identical bytes |
| `BsonRoundTrip.CopyAsSubdocument` | lib/mongo_c_driver/src/bson.c:967-994 | start_object, element-wise copies and finish_object append the same bytes as bson_append_bson |
| `Encoding.ValidateString` | lib/mongo_c_driver/src/encoding.c:122-154 | the position loop accepts exactly the strings of legal sequences (when asked to check) and sets exactly the stated error bits |
| `Encoding.SplitUnique` | lib/mongo_c_driver/src/encoding.c:47-102 | a split into legal sequences of table length is unique and implies acceptance |
| `Encoding.AcceptedIffSplits` | lib/mongo_c_driver/src/encoding.c:122-154 | a string is accepted if and only if it splits into legal sequences of table length |
| `Encoding.LegalIsUtf8CharOrLoose` | lib/mongo_c_driver/src/encoding.c:70-102 | a sequence is legal exactly if it is a character of section 4 of RFC 3629 or one of the looser ones, surrogates and F4 with a second byte below 80 |
| `Encoding.WellFormedExactly` | lib/mongo_c_driver/src/encoding.c:122-154 | a string is well-formed under section 4 of RFC 3629 exactly when it is accepted and none of its sequences is loose |
| `Encoding.RfcStringsAccepted` | lib/mongo_c_driver/src/encoding.c:122-154 | every well-formed string is accepted, and every accepted one without the bytes 0xED and 0xF4 is well-formed |
| `Encoding.LooseStringsExist` | lib/mongo_c_driver/src/encoding.c:83-99 | two accepted strings that are not well-formed |
| `Encoding.DotSeenExactly` | lib/mongo_c_driver/src/encoding.c:134-151 | in an accepted name a dot is flagged exactly if it is a character of its own |
| `Encoding.DotsFlagged` | lib/mongo_c_driver/src/encoding.c:134-151 | in a well-formed name, and in any unchecked one, a dot is flagged exactly if there is one |
| `Encoding.DollarsFlagged` | lib/mongo_c_driver/src/encoding.c:105-132 | a leading dollar is flagged exactly unless the name begins with $ref or is $id or $db |
| `Bcon.FieldRuns` | lib/mongo_c_driver/src/bcon.c:181-225 | one field takes the machine through its rounds back to the same stacks with exactly the encoder's calls added |
| `Bcon.ElementRuns` | lib/mongo_c_driver/src/bcon.c:226-263 | one array element is keyed by the index, which then moves on by one and survives any nested array |
| `Bcon.TypedValue` | lib/mongo_c_driver/src/bcon.c:57-144 | an entry under a typespec makes the encoder's calls; a null P pointer makes none |
| `Bcon.Tokens` | lib/mongo_c_driver/src/bcon.c:42-55 | the marks and typespecs are recognised, longer strings and other letters are not |
| `Bcon.TypedEntries` | lib/mongo_c_driver/src/bcon.c:62-135 | each type letter takes a value of its own type, directly, by reference and by pointer; times become milliseconds |
| `Bcon.TextEntries` | lib/mongo_c_driver/src/bcon.c:62-135 | the same for strings and symbols |
| `Bcon.OtherEntries` | lib/mongo_c_driver/src/bcon.c:62-138 | untyped strings, nulls, nested documents and arrays, and null pointers, which append nothing |
| `Bcon.DecimalSpells` | lib/mongo_c_driver/src/bson.c:1138-1143 | an array key spells its index in decimal digits, without a leading zero |
| `Bcon.BracketedRuns` | lib/mongo_c_driver/src/bcon.c:207-211 | a bracketed list, in a field or in an array, resets the index, runs its elements and restores state, stacks and index |
| `Bcon.BracedRuns` | lib/mongo_c_driver/src/bcon.c:202-206 | a braced list runs its fields and restores state and stacks |
| `Bcon.NodesRun` | lib/mongo_c_driver/src/bcon.c:226-263 | an array of n elements advances the index by n, even over elements that append nothing, and adds the encoder's calls |
| `Bcon.DocumentRuns` | lib/mongo_c_driver/src/bcon.c:164-272 | for every balanced document within the 1024-deep stacks the loop makes exactly the recursive encoder's calls and ends in its start state |
| `Bcon.ArrayRuns` | lib/mongo_c_driver/src/bcon.c:164-276 | the same for arrays, keys counting from 0 |
| `Bcon.KeyWithoutValue` | lib/mongo_c_driver/src/bcon.c:212-214 | a document that ends after a key is reported incomplete, with the calls for what came before |
| `Bcon.LeftOpen` | lib/mongo_c_driver/src/bcon.c:187-189 | an array left open is reported incomplete, a sub-document left open is not, its state being the start state |
| `BconBuild.AppendByLetter` | lib/mongo_c_driver/src/bcon.c:62-135 | the call chosen by type letter appends the value itself to the buffer |
| `BconBuild.AppendKeyValue` | lib/mongo_c_driver/src/bcon.c:57-144 | appends what the entry stands for, opening, running and closing nested documents given by reference |
| `BconBuild.AppendNested` | lib/mongo_c_driver/src/bcon.c:68-77 | a document by reference is opened, run by a loop of its own and closed |
| `BconBuild.Variables.PushState` | lib/mongo_c_driver/src/bcon.c:154-154 | pushes a return state on the fixed stack |
| `BconBuild.Variables.PopState` | lib/mongo_c_driver/src/bcon.c:155-155 | returns to the state pushed last |
| `BconBuild.Variables.PushIndex` | lib/mongo_c_driver/src/bcon.c:156-156 | saves the array index and starts again at 0 |
| `BconBuild.Variables.PopIndex` | lib/mongo_c_driver/src/bcon.c:157-157 | restores the array index saved last |
| `BconBuild.Variables.NextKey` | lib/mongo_c_driver/src/bcon.c:159-159 | the key spells the index in decimal, and the index moves on |
| `BconBuild.OnElement` | lib/mongo_c_driver/src/bcon.c:181-195 | a round in this state is the machine's step |
| `BconBuild.OnDocSpec` | lib/mongo_c_driver/src/bcon.c:196-220 | a round in this state is the machine's step |
| `BconBuild.OnDocValue` | lib/mongo_c_driver/src/bcon.c:221-225 | a round in this state is the machine's step |
| `BconBuild.OnArraySpec` | lib/mongo_c_driver/src/bcon.c:226-257 | a round in this state is the machine's step |
| `BconBuild.OnArrayValue` | lib/mongo_c_driver/src/bcon.c:258-263 | a round in this state is the machine's step |
| `BconBuild.AppendWithState` | lib/mongo_c_driver/src/bcon.c:164-268 | the loop over arrays and counters, on a real buffer, returns what the machine returns and leaves the document the machine's calls make, as long as no append failed; appends that must fit do not fail; both fixed stacks stay in bounds |
| `BconBuild.NodeMade` | lib/mongo_c_driver/src/bcon.c:57-144 | the encoder's calls for a node add exactly the elements the node stands for |
| `BconBuild.FieldsMade` | lib/mongo_c_driver/src/bcon.c:270-272 | the encoder's calls for a document add exactly its elements, and all succeed where the document is buildable and of safe size |
| `BconBuild.NamedByPosition` | lib/mongo_c_driver/src/bcon.c:226-263 | in the document an array makes, what element k adds is named by k in decimal, whatever stands before it |
| `BconBuild.FromBcon` | lib/mongo_c_driver/src/bcon.c:284-291 | every balanced BCON document that is buildable and of safe size becomes exactly the BSON bytes of its tree; on any entries the loop is defined for, incomplete is reported exactly when the loop does, and OK only for a finished document |
| `Probing.MaskIsMod` | lib/int_ht_seq/src/int-ht-seq.c:94-96 | masking with 2^k - 1 is reduction modulo 2^k, for negative hashes too |
| `Probing.MaskedIndex` | lib/int_ht_seq/src/int-ht-seq.c:94-97 | the home slot is inside the table and each step is to the next slot, around the end |
| `Probing.GrowTo` | lib/int_ht_seq/src/int-ht-seq.c:27-32 | doubling reaches the size asked for, stays a power of two and overshoots by less than a factor of two |
| `Probing.ProbedStep` | lib/int_ht_seq/src/int-ht-seq.c:95-97 | a probe step comes nearer to any free slot without closing the circle, so every probe ends |
| `Probing.AbsentAtEmpty` | lib/kv_store/src/kv_store.c:1048-1062 | a probe that ends at an empty slot proves the key absent |
| `Probing.InsertKey` | lib/kv_store/src/kv_store.c:1076-1105 | a key may go to any free slot or tombstone its probe passes; every other key stays reachable |
| `Probing.RemoveKey` | lib/kv_store/src/kv_store.c:1124-1132 | a tombstone keeps every other key reachable |
| `KvElement.EqualIsCanon` | lib/kv_store/src/kv_store.c:318-367 | element equality is equality of canonical forms, so an equivalence |
| `KvElement.EqualElementsHashAlike` | lib/kv_store/src/kv_store.c:369-413 | equal elements hash alike |
| `KvElement.EqualExactly` | lib/kv_store/src/kv_store.c:318-367 | contents decide equality, and the two kinds of string count as one type |
| `KvElement.TypesApart` | lib/kv_store/src/kv_store.c:323-326 | elements of other different types are never equal |
| `KvElement.HashExactly` | lib/kv_store/src/kv_store.c:369-386 | which hash function each type is folded in with |
| `KvStore.Store.constructor` | lib/kv_store/src/kv_store.c:945-957 | a new store is the empty map in 32 slots |
| `KvStore.Store.Probe` | lib/kv_store/src/kv_store.c:1048-1062 | the probe loop ends, at the key's one slot or at an empty slot when it is absent |
| `KvStore.Store.Get` | lib/kv_store/src/kv_store.c:1039-1063 | the map's value, or not found and the variable left alone |
| `KvStore.Store.Contains` | lib/kv_store/src/kv_store.c:1142-1165 | whether the map binds the key |
| `KvStore.Store.ProbeForSet` | lib/kv_store/src/kv_store.c:1072-1090 | finds the key's slot or an empty one, and a tombstone passed on the way, if any |
| `KvStore.Store.Set` | lib/kv_store/src/kv_store.c:1065-1106 | binds the key in the map and keeps the invariant (exact element count, occupied at most elements + removed, a free slot) although a reused tombstone stays counted as removed; the table grows, or only loses its tombstones, exactly beyond three quarters |
| `KvStore.Store.Remove` | lib/kv_store/src/kv_store.c:1108-1140 | unbinds the key, reports whether it was there, keeps the invariant |
| `KvStore.Store.CopyCell` | lib/kv_store/src/kv_store.c:1178-1187 | one round of the rehash loop; its set finds the new table uncrowded, so expand is never entered again |
| `KvStore.Store.Expand` | lib/kv_store/src/kv_store.c:1167-1193 | the same map in a table of the same or twice the size, by the counters, with no tombstones and room for one more |
| `KvStore.Step` | lib/kv_store/src/kv_store.c:1039-1165 | one operation answers and changes the store as the plain map does |
| `KvStore.Run` | lib/kv_store/src/kv_store.c:1039-1193 | over any sequence of set, get, contains and remove every answer and the final bindings are the plain map's |
| `KvStore.StoresEqual` | lib/kv_store/src/kv_store.c:983-1004 | reports equal exactly when both maps have the same bindings |
| `KvStore.StoreHash` | lib/kv_store/src/kv_store.c:1023-1037 | the hash is the XOR over the bindings, whatever sizes, layouts and tombstones |
| `KvStore.XorAllAdd` | lib/kv_store/src/kv_store.c:1027-1033 | each binding adds the hash of its key and the hash of its value |
| `KvStore.SameBindingsHashAlike` | lib/kv_store/src/kv_store.c:1023-1037 | maps with the same bindings have the same hash |
| `KvList.List.constructor` | lib/kv_store/src/kv_store.c:467-476 | a new list is empty |
| `KvList.List.InsertBefore` | lib/kv_store/src/kv_store.c:585-606 | the contents gain the value just before the node; links stay inverse and acyclic, ends and length right |
| `KvList.List.InsertAfter` | lib/kv_store/src/kv_store.c:608-629 | the contents gain the value just after the node; the same invariant |
| `KvList.List.InsertFirst` | lib/kv_store/src/kv_store.c:631-651 | the contents gain the value in front; the same invariant |
| `KvList.List.InsertLast` | lib/kv_store/src/kv_store.c:653-673 | the contents gain the value at the end; the same invariant |
| `KvList.List.PopFirst` | lib/kv_store/src/kv_store.c:675-698 | takes the first value off, or reports that there is none; the same invariant |
| `KvList.List.PopLast` | lib/kv_store/src/kv_store.c:700-723 | takes the last value off, or reports that there is none; the same invariant |
| `KvList.List.Remove` | lib/kv_store/src/kv_store.c:725-745 | the contents lose exactly that node; the same invariant |
| `KvList.List.Find` | lib/kv_store/src/kv_store.c:568-583 | the first node with an equal value, or none has one |
| `KvList.ListsEqual` | lib/kv_store/src/kv_store.c:509-528 | reports equal exactly when the shorter list is a prefix of the longer; the answer is list equality if and only if the lengths are equal or the lists differ before the shorter one ends |
| `KvList.EmptyListEqualsAny` | lib/kv_store/src/kv_store.c:517-527 | a wrong answer: an empty list is reported equal to a list of one element |
| `KvList.Step` | lib/kv_store/src/kv_store.c:568-745 | one operation answers and changes the list as the plain sequence does |
| `KvList.Run` | lib/kv_store/src/kv_store.c:568-745 | over any sequence of inserts, pops, removes and finds every answer and the final contents are the plain sequence's |
| `IntHashMap.New` | lib/int_hm_seq/src/int-hm-seq.c:17-40 | an empty map of at least 16 slots, a power of two, at least twice and less than four times the request |
| `IntHashMap.IntMap.Probe` | lib/int_hm_seq/src/int-hm-seq.c:160-181 | the probe loop of get and remove ends, at the key's one slot or at an empty slot, for a sentinel at a slot without a key |
| `IntHashMap.IntMap.ProbeForInsert` | lib/int_hm_seq/src/int-hm-seq.c:140-152 | the probe loop of insert and get_location, with its tombstone branch, never notes a tombstone and never lowers the removed count |
| `IntHashMap.IntMap.Get` | lib/int_hm_seq/src/int-hm-seq.c:175-188 | for every int64 the map's value, or EMPTY |
| `IntHashMap.IntMap.Insert` | lib/int_hm_seq/src/int-hm-seq.c:134-156 | binds the key; the table doubles exactly beyond 0.7f of its size; occupied at most elements + removed keeps a free slot although elements counts overwrites too |
| `IntHashMap.IntMap.Remove` | lib/int_hm_seq/src/int-hm-seq.c:158-173 | unbinds the key, leaving a tombstone |
| `IntHashMap.IntMap.GetLocation` | lib/int_hm_seq/src/int-hm-seq.c:190-217 | the slot of the key's value, a missing key being bound to EMPTY first |
| `IntHashMap.IntMap.StoreThrough` | lib/int_hm_seq/src/int-hm-seq.c:190-217 | storing through the location binds the key to the value |
| `IntHashMap.IntMap.CopyCell` | lib/int_hm_seq/src/int-hm-seq.c:71-75 | one round of the rehash loop; its insert never expands |
| `IntHashMap.IntMap.Expand` | lib/int_hm_seq/src/int-hm-seq.c:50-79 | the same map with exact counters; twice the size leaves it uncrowded |
| `IntHashMap.IntMap.ExpandVersioned` | lib/int_hm_seq/src/int-hm-seq.c:81-110 | leaves exactly the bindings whose value is v |
| `IntHashMap.Run` | lib/int_hm_seq/src/int-hm-seq.c:134-217 | over any sequence of insert, remove, get and get_location with a store, every get answers as the plain map |
| `IntHashSet.IntSet.constructor` | lib/int_ht_seq/src/int-ht-seq.c:25-44 | an empty set in a power of two of at least 16 slots, at least twice the request |
| `IntHashSet.IntSet.Clear` | lib/int_ht_seq/src/int-ht-seq.c:46-53 | the empty set, in the same table |
| `IntHashSet.IntSet.Probe` | lib/int_ht_seq/src/int-ht-seq.c:94-97 | the probe loop ends, at the key or at an empty slot when it is absent |
| `IntHashSet.IntSet.Exists` | lib/int_ht_seq/src/int-ht-seq.c:107-120 | true exactly for the members and for the sentinel INT64_MIN |
| `IntHashSet.IntSet.Insert` | lib/int_ht_seq/src/int-ht-seq.c:88-105 | adds the key; the table doubles exactly beyond 0.7f of its size; elements stays the exact cardinality and a slot stays free |
| `IntHashSet.IntSet.CopyCell` | lib/int_ht_seq/src/int-ht-seq.c:78-82 | one round of the rehash loop; into a table of twice the size it never expands again |
| `IntHashSet.IntSet.Expand` | lib/int_ht_seq/src/int-ht-seq.c:72-86 | the same members, whatever size is asked for |
| `IntHashSet.Run` | lib/int_ht_seq/src/int-ht-seq.c:25-120 | over any sequence of insert, empty and exists every answer is the plain set's, the sentinel always being present |
| `Md5.PadZerosLeast` | lib/mongo_c_driver/src/md5.c:358-378 | the number of padding bytes is the least that brings the length to 56 modulo 64 (section 3.1 of RFC 1321) |
| `Md5.CountCarry` | lib/mongo_c_driver/src/md5.c:331-335 | adding the bit length in two words with the carry taken from the wrapped low word is addition modulo 2^64 |
| `Md5.OffsetFromCount` | lib/mongo_c_driver/src/md5.c:325-325 | the buffer offset read from the low word is the message length modulo 64 |
| `Md5.FoldConcat` | lib/mongo_c_driver/src/md5.c:349-351 | folding the compression over whole blocks in two parts is folding over both |
| `Md5.State.constructor` | lib/mongo_c_driver/src/md5.c:312-319 | an empty message and the initial registers of section 3.3 of RFC 1321 |
| `Md5.InitialBytes` | lib/mongo_c_driver/src/md5.c:312-319 | the initial registers are the bytes of section 3.3 of RFC 1321 |
| `Md5.PaddedAbc` | lib/mongo_c_driver/src/md5.c:358-375 | the one padded block of the message abc |
| `Md5.PaddedSize` | lib/mongo_c_driver/src/md5.c:358-375 | padding makes whole blocks, as few as hold the length |
| `Md5.State.Append` | lib/mongo_c_driver/src/md5.c:321-356 | for any earlier chunks: the message grows by the chunk, the registers are the fold over its whole blocks, the buffer holds the rest, the counter its bit length modulo 2^64 |
| `Md5.State.ProcessRest` | lib/mongo_c_driver/src/md5.c:349-355 | the block loop and the final copy leave registers and buffer as the message demands |
| `Md5.State.Finish` | lib/mongo_c_driver/src/md5.c:358-378 | the digest of sections 3.1 to 3.5 of RFC 1321 of the message appended |
| `Md5.DigestOfChunks` | lib/mongo_c_driver/src/md5.c:321-378 | for any split into appends the digest is that of the concatenation |
| `EditDistance.SoundTransforms` | external/googletest/src/gtest.cc:1028-1083 | a script that consumes both inputs and matches only equal elements turns left into right |
| `EditDistance.ScriptSound` | external/googletest/src/gtest.cc:1073-1082 | for every move table with the edges and matches the code gives it, whatever chose the other moves, the script traced back from every cell is sound for the prefixes of that cell |
| `EditDistance.FillTables` | external/googletest/src/gtest.cc:1030-1071 | for any cost arithmetic, rounding included, the loops fill the move table cell by cell as the recurrence says |
| `EditDistance.CalculateOptimalEdits` | external/googletest/src/gtest.cc:1028-1083 | for all inputs and any cost arithmetic, rounding included, the trace-back ends, gives the script of the move table, and that script is sound |
| `EditDistance.NotMinimal` | external/googletest/src/gtest.cc:1058-1069 | in any cost arithmetic where nothing is less than itself, for aba to bab the script has three edits where two do |
| `EditDistance.MatchesKept` | external/googletest/src/gtest.cc:1046-1071 | in any arithmetic that counts up, a to ab adds and ab to a removes, the equal element kept |
| `EditOptimality.NoScriptCheaper` | external/googletest/src/gtest.cc:1028-1083 | no sound script weighs less than the exact recurrence allows |
| `EditOptimality.BestAttained` | external/googletest/src/gtest.cc:1028-1083 | some sound script weighs exactly that |
| `EditOptimality.ScriptWeight` | external/googletest/src/gtest.cc:1030-1071 | without rounding, the cost table holds the weight of the script that is traced back |
| `EditOptimality.ExactCell` | external/googletest/src/gtest.cc:1055-1069 | without rounding, a cell with right neighbours is right exactly unless the replace branch is taken on a tie that makes adding or removing cheaper |
| `EditOptimality.LooseSteps` | external/googletest/src/gtest.cc:1048-1069 | for any move the table may hold: edges and matches are always tight; any other step is tight exactly if no other edit comes from a cell that makes it cheaper |
| `EditOptimality.ExactPath` | external/googletest/src/gtest.cc:1073-1082 | for every move table, the script traced back from a cell has the least weight exactly if every step of it is tight |
| `EditOptimality.CheapestExactly` | external/googletest/src/gtest.cc:1028-1083 | for all inputs and every move table, whatever rounding filled it, the script is the cheapest of all sound ones if and only if every step of its path is tight |
| `EditOptimality.MissedOnPath` | external/googletest/src/gtest.cc:1055-1069 | without rounding, a cell on the path where the replace branch is taken on such a tie keeps the script from being the cheapest |
| `EditOptimality.CheapestUnlessMissed` | external/googletest/src/gtest.cc:1055-1069 | without rounding, with no such cell in the whole table the script is the cheapest |
| `EditOptimality.UntiedIsExact` | external/googletest/src/gtest.cc:1055-1069 | without rounding, a cell with right neighbours is right exactly if no two of the three edits tie, as told by the least weights alone |
| `EditOptimality.CheapestUnlessTied` | external/googletest/src/gtest.cc:1028-1083 | without rounding, inputs without a tied cell get a cheapest script |
| `EditOptimality.MissedOffPath` | external/googletest/src/gtest.cc:1055-1069 | without rounding, off the path such a cell does no harm: 01 to 100 |
| `EditOptimality.LooseWithoutMissed` | external/googletest/src/gtest.cc:1055-1069 | without rounding, a path may be loose without such a cell: 0100 to 10001 |
| `UnifiedDiff.InternalStrings.GetIds` | external/googletest/src/gtest.cc:1088-1117 | lines get equal ids exactly when they are equal strings, across both inputs |
| `UnifiedDiff.CalculateLineEdits` | external/googletest/src/gtest.cc:1104-1118 | the script over ids is sound for the lines themselves, for any cost arithmetic |
| `UnifiedDiff.Hunk.PushLine` | external/googletest/src/gtest.cc:1135-1151 | the left and right lines of the hunk gain the line on the sides its mark says |
| `UnifiedDiff.Hunk.FlushEdits` | external/googletest/src/gtest.cc:1166-1169 | collected removals then additions go to the end of the list; neither side's lines change |
| `UnifiedDiff.Hunk.Print` | external/googletest/src/gtest.cc:1153-1187 | counts are the sizes of both sides, removals come before additions in every block, a side is shown when it has changes |
| `UnifiedDiff.MatchRun` | external/googletest/src/gtest.cc:1211-1216 | a run of matches is the same slice of both inputs |
| `UnifiedDiff.FillHunk` | external/googletest/src/gtest.cc:1225-1253 | the hunk holds exactly the slices the indices passed; it ends with full context or at the end, and skips no place to split |
| `DiffLines.RunsMean` | external/googletest/src/gtest.cc:1135-1151 | the first and last run counted for a hunk are the common lines before its first and after its last change |
| `DiffLines.InnerRunsMean` | external/googletest/src/gtest.cc:1135-1151 | the runs between are the common lines between two changes |
| `UnifiedDiff.NextHunk` | external/googletest/src/gtest.cc:1210-1261 | one round prints a hunk whose slices are what its starts and counts claim, after only equal lines and with exactly the context asked for, or finds none left |
| `UnifiedDiff.AppendHunk` | external/googletest/src/gtest.cc:1255-1261 | a further hunk keeps hunks ordered and disjoint and extends what applying them reconstructs |
| `UnifiedDiff.StartFromText` | external/googletest/src/gtest.cc:1175-1187 | where the header leaves a range out, it follows from the other one and the hunks before |
| `UnifiedDiff.TextSuffices` | external/googletest/src/gtest.cc:1175-1187 | what is printed of the hunks, without the ranges left out, turns left into right |
| `UnifiedDiff.CreateUnifiedDiff` | external/googletest/src/gtest.cc:1203-1263 | for every left, right, context and cost arithmetic: hunks faithful, increasing and disjoint, each with exactly the leading and trailing context asked for unless an input ends, and fewer than twice as many common lines between changes; applying them, or only what is printed of them, to left gives right if and only if context is positive or the inputs are equal |
| `SimpleRegex.ValidFromIsParsable` | external/googletest/src/gtest-port.cc:663-718 | the validation loop accepts exactly what the grammar of atoms, repetitions and anchors derives |
| `SimpleRegex.ValidateRegex` | external/googletest/src/gtest-port.cc:663-718 | accepts exactly the non-null regexes that parse |
| `SimpleRegex.ParsedExactly` | external/googletest/src/gtest-port.cc:663-718 | a string parses to a regex exactly if it is how that regex is written and each piece may be written so |
| `SimpleRegex.PlainAtoms` | external/googletest/src/gtest-port.cc:652-652 | a dot matches all but a newline, any other unescaped character only itself |
| `SimpleRegex.EscapedAtoms` | external/googletest/src/gtest-port.cc:635-648 | what each escape class holds, by character codes |
| `SimpleRegex.OtherEscapes` | external/googletest/src/gtest-port.cc:649-649 | escaped punctuation matches itself |
| `SimpleRegex.Punctuation` | external/googletest/src/gtest-port.cc:617-619 | punctuation is every visible ASCII character but letters and digits |
| `SimpleRegex.EscapeLetters` | external/googletest/src/gtest-port.cc:627-630 | which letters may be escaped |
| `SimpleRegex.SpecialCharacters` | external/googletest/src/gtest-port.cc:620-620 | which characters repeat, and which are not supported |
| `SimpleRegex.HeadCons` | external/googletest/src/gtest-port.cc:753-780 | a body matches at the head exactly if some number of its first atom does and the rest matches after |
| `SimpleRegex.MatchRepetitionAndRegexAtHead` | external/googletest/src/gtest-port.cc:726-751 | true exactly if some allowed number of repetitions is followed by a match of the rest |
| `SimpleRegex.MatchRegexAtHead` | external/googletest/src/gtest-port.cc:753-780 | true exactly if some prefix matches the declarative meaning of the regex |
| `SimpleRegex.MatchRegexAnywhere` | external/googletest/src/gtest-port.cc:789-802 | for every accepted regex, true exactly if some substring matches, anchors respected; false for null arguments |
| `SimpleRegex.FinalDollar` | external/googletest/src/gtest-port.cc:841-853 | a final $ is the anchor exactly if an even number of backslashes precedes it |
| `SimpleRegex.AppendDollar` | external/googletest/src/gtest-port.cc:847-851 | a $ appended to a body without an anchor becomes its anchor |
| `SimpleRegex.FullPatternParses` | external/googletest/src/gtest-port.cc:834-853 | what the pattern built for full matches parses to |
| `SimpleRegex.RE.constructor` | external/googletest/src/gtest-port.cc:823-854 | validity and the built pattern, also for a null regex |
| `SimpleRegex.RE.PartialMatch` | external/googletest/src/gtest-port.cc:818-820 | true exactly if the regex is valid, the string not null and some substring matches |
| `SimpleRegex.RE.FullMatch` | external/googletest/src/gtest-port.cc:812-814 | true exactly if the regex is valid, the string not null and it matches as the built pattern means |
| `SimpleRegex.FullMatchExact` | external/googletest/src/gtest-port.cc:823-854 | full match means that the whole string matches, for all strings, if and only if the regex does not end in an escaped dollar |
| `SimpleRegex.EscapedDollarExample` | external/googletest/src/gtest-port.cc:847-851 | a regex and a string for which it does not |
| `TestFilter.PatternMatchesExactly` | external/googletest/src/gtest.cc:462-477 | the wildcard recursion is true exactly if the string can be cut into pieces that fit the pattern characters |
| `TestFilter.MatchesFilter` | external/googletest/src/gtest.cc:479-498 | true exactly if one of the colon-separated patterns matches |
| `TestFilter.DeathTestNames` | external/googletest/src/gtest.cc:165-165 | the death test filter passes exactly the names that end in DeathTest or contain DeathTest/ |
| `Shuffle.ShuffleRange` | external/googletest/src/gtest-internal-inl.h:311-329 | shuffles exactly [begin, end) by the random choices and leaves the rest alone |
| `Shuffle.ShuffledPermutes` | external/googletest/src/gtest-internal-inl.h:322-328 | a shuffle is a permutation |
| `Shuffle.LastPlace` | external/googletest/src/gtest-internal-inl.h:324-328 | the first choice selects the element for the last place, whose own fills the gap, and the other choices shuffle what is left |
| `Shuffle.EveryOrder` | external/googletest/src/gtest-internal-inl.h:322-328 | every order of the elements comes out for some choices |
| `Shuffle.OneWayEach` | external/googletest/src/gtest-internal-inl.h:322-328 | different choices give different orders, so fair choices give a fair shuffle |
| `Shuffle.ShuffledPicked` | external/googletest/src/gtest-internal-inl.h:322-328 | shuffling the index vector of some elements shuffles the elements |
| `TestOrder.TestCase.AddTestInfo` | external/googletest/src/gtest.cc:2753-2756 | the new test runs last, shuffled or not |
| `TestOrder.TestCase.ShuffleTests` | external/googletest/src/gtest.cc:2793-2795 | permutes the test order by the choices |
| `TestOrder.TestCase.UnshuffleTests` | external/googletest/src/gtest.cc:2798-2802 | restores the order the tests were added in |
| `TestOrder.TestCase.GetMutableTestInfo` | external/googletest/src/gtest.cc:2746-2749 | the test that runs i-th, or none outside the range |
| `TestOrder.UnitTestImpl.GetTestCase` | external/googletest/src/gtest.cc:4500-4533 | finds the test case of the name or registers a new, empty one and no other; test cases stay death tests in registration order, then the others in registration order |
| `TestOrder.UnitTestImpl.ShuffleTests` | external/googletest/src/gtest.cc:4937-4949 | each block and the tests of each case are permuted by themselves |
| `TestOrder.UnitTestImpl.UnshuffleTests` | external/googletest/src/gtest.cc:4952-4959 | the order of registration, for cases and tests |
| `TestOrder.UnitTestImpl.RunsDeathsFirst` | external/googletest/src/gtest-internal-inl.h:584-587 | in every reachable state the run order is a permutation with every death test case before every other one |
| `TestOrder.UnitTestImpl.GetMutableTestCase` | external/googletest/src/gtest-internal-inl.h:584-587 | the test case that runs i-th, or none outside the range |
| `TestOrder.UnitTestImpl.GetTestCaseAt` | external/googletest/src/gtest-internal-inl.h:577-580 | the i-th test case as registered, the index vector only bounding i |
| `TestOrder.UnitTestImpl.AccessorsAgree` | external/googletest/src/gtest-internal-inl.h:575-587 | the two accessors agree exactly while nothing is shuffled |
| `TestOrder.UnitTestImpl.RunAllTests` | external/googletest/src/gtest.cc:4616-4680 | over any number of rounds with any random choices, every round runs each test case and test once, death tests first, in exactly the order its choices draw, and leaves registration order behind |
| `TestProgram.Register` | external/googletest/src/gtest.cc:4500-4533 | over any registrations the cases are those named, in order of first appearance, each with its tests in order |
| `TestProgram.Draw` | external/googletest/src/gtest.cc:311-325 | each choice is the random number reduced to the range asked for |
| `TestProgram.RunProgram` | external/googletest/src/gtest.cc:4616-4680 | any registrations and then any rounds with any random source: cases in order of registration with death tests first, every round complete, death tests first and exactly as the random numbers draw it, an unshuffled round in that very order |
| `TestOrder.RegisteredWhileShuffled` | external/googletest/src/gtest.cc:4516-4531 | a death test case registered while shuffled still runs before all others exactly if there are no others or the first of them runs first |

## Left out

- Bcon.DocumentRuns: unbalanced input, null entries and untyped strings shaped like tokens, for which the loop has no checks, and more than 10^8 array elements, which overrun the nine-byte key buffer.
- Bcon.ArrayRuns: the same.
- BconBuild.FromBcon: entries on which the loop overruns its stacks or reads past the end.
- BconBuild.AppendByLetter: object ids are given as bytes; parsing them from hex and generating them from time and random numbers is not modelled, and times are limited to seconds whose milliseconds fit an int64.
- BsonBuilder.Bson.constructor: `bson_init_size` below 4 bytes, where the write position is outside the buffer, and `bson_init_unfinished_data`, which never sets it.
- BsonBuilder.Bson.AppendBson: a document that is not finished, whose length field has not been written.
- BsonBuilder.Bson.AppendCodeWScope: a scope that is not finished, for the same reason.
- BsonBuilder.Bson.AppendCopied: `bson_append_element` with a new name, which ignores a failed element start, and a buffer already finished, to which the code still copies.
- BsonRoundTrip.AppendElement: the same, and an iterator not yet stepped onto an element.
- BsonRoundTrip.RoundTrip: that a build succeeds is proved up to 2^30 - 1 bytes; beyond, growth may overflow an int, as each append's own contract says.
- BsonIterator.Iterator.constructor: only encoded documents are walked; corrupt buffers are not modelled.
- BsonIterator.Iterator.Next: the same; DBREF elements, which have no append call, are skipped by size only.
- BsonIterator.ReadLeaf: the accessors that convert between int, long, double and bool.
- KvElement.EqualIsCanon: elements are scalars that are not doubles, whose equality and hash disagree; containers are not modelled.
- KvElement.EqualElementsHashAlike: the same.
- KvStore.Run: the same for keys and values; trackers and changing a key object after it was stored are not modelled.
- KvStore.StoresEqual: the same.
- IntHashMap.IntMap.Insert: keys other than the two sentinels, which the table cannot hold; sizes beyond 2^62 and the missing return values of the expand functions are not modelled.
- IntHashMap.IntMap.Remove: keys other than the two sentinels, whose removal would miscount the elements.
- IntHashMap.IntMap.GetLocation: keys other than the two sentinels.
- IntHashMap.Run: the same for all but get; `int_hm_seq_insert_versioned`, which may overwrite another key, has no map meaning.
- IntHashSet.IntSet.Insert: keys other than INT64_MIN, which the table cannot hold.
- IntHashSet.Run: the same for insert.
- Md5.State.Append: chunks whose length plus 64 fits an int, since the code adds the offset to it; the compression step is an arbitrary function.
- Md5.DigestOfChunks: the same.
- EditOptimality.ScriptWeight: costs without rounding; with it the table holds only approximate weights.
- EditOptimality.ExactCell: costs without rounding, where ties are ties; the exact condition for any rounding is on the path, in CheapestExactly.
- EditOptimality.MissedOnPath: the same.
- EditOptimality.UntiedIsExact: the same.
- EditOptimality.CheapestUnlessTied: the same.
- EditOptimality.CheapestUnlessMissed: the same.
- EditOptimality.MissedOffPath: the same.
- EditOptimality.LooseWithoutMissed: the same.
- UnifiedDiff.Hunk.Print: the header and lines as a record, not as characters.
- UnifiedDiff.CreateUnifiedDiff: what is printed as records of ranges and lines, not as characters.
- SimpleRegex.MatchRegexAnywhere: strings longer than size_t can count.
- TestOrder.UnitTestImpl.RunAllTests: filtering, sharding, environments, listeners and the tests' own effects.
- TestProgram.RunProgram: the same.
- `kv_vector_*`, list iteration, `kv_from_ini` and `kv_from_args`: the vector would only add easy members, the others read files and arguments.
- `int64vector.c`, whose reallocation counts elements instead of bytes.
- Allocation failure, destruction and freeing, null arguments other than those named.
- Printing, sockets, files, death test processes, XML and JSON libraries, Python scripts, and the STINGER graph core.
