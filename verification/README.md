# SpacetimeDB: a Dafny model of its bindings, CLI and tools

The project models seven parts of SpacetimeDB in which correctness depends on several functions, a
loop or a whole run, and proves what those parts promise.

| part | modules | main results |
|---|---|---|
| The C# code generator for equality and hashing | `CsLanguage`, `CsEquality`, `CsHash`, `CsProduct`, `CsHashLaws`, `CsNames`, `CsCapture`, `CsSpelled`, `Decimal` | A compiler proof. The emitted statements, run by an interpreter, compute logical equality and a hash for types nested to any depth, and touch no other local. The generated `==` is an equivalence, equal instances hash alike, and every member counts in the hash while their order does not. The exact member names that a local hides; without them the text, known by spellings only, runs the same. |
| The range-compressed set of deleted rows | `OffsetRanges`, `DeleteTable` | Refinement of a plain set over every run of operations, with the exact condition under which it fails. Canonical ranges are determined by the set. |
| The row protocol between a module and its host | `HostRows`, `TableScan`, `ManyScans`, `ScanArgs`, `BytesIo` | Whole scans return the table's rows once each, in order, alone or in any interleaving of opening, reading and dropping. Every iterator is destroyed exactly once, and no call is made with a dead handle. Buffers are never shared. Scan arguments decode to the query. |
| Derived serialization | `Bsatn`, `ReprC`, `NamedVisitor` | The wire format byte by byte, the round trip in both directions, prefix-freedom, and the raw-memory fast path against the field-by-field one. The named-field visitor against the positional one. |
| The CLI's server configurations | `CliServers`, `CliDocument` | No string names two servers. The exact edits that lose the default. Saving and loading as a round trip on every lookup. |
| The publish order of crates | `PublishOrder` | Each reachable crate once, after all of its dependencies, unless a cycle is reachable. |
| Benchmark support | `MemoQuery`, `NthName` | A double-checked cache under every interleaving of threads, panics included. An injective naming of numbers. |

Values that the source computes are datatypes and functions. Objects whose methods update their
fields (`Table`, `Host`, `RowIter`, `TableIter`, `Buffer`, `BufPool`, `RawConfig`, `Sink`, `Source`)
are classes, and loops of the source are loops with invariants. `Seqs`, `Multiples` and `Options` hold
what several modules share.

## What does not hold of the code

Each of these has a lemma or method that gives the exact condition, in both directions, and a lemma at
a failing input.

- Inserting a deleted row that is followed by another deleted row cuts the rest of the run off. The
  comment in `crates/bench/benches/delete_table.rs:275-279` says that nothing is done, but
  `extend_end` is true there and line 351 moves the end of the range. See `DeleteTable.Table.Insert`,
  `DeleteTable.Table.Run` and `DeleteTable.ReinsertExample`.
- Rows of a type that takes no bytes are lost by a table scan. See `TableScan.Scan` and
  `TableScan.LostRowExample`.
- The lookup on a unique index fails its assertion on a host that keeps the documented contract but
  reports exhaustion only after the last row. See `TableScan.Find` and
  `HostRows.LateExhaustionAllowed`.
- A member that is called like a local of the generated `GetHashCode` is hidden by it. See
  `CsCapture.HashApartIff`, `CsCapture.HashMethodApartIff` and `CsCapture.ReservedMemberCaptured`.
- A value whose variant index is 256 or more does not survive the round trip. See `Bsatn.RoundTripIff`
  and `Bsatn.WrappedTagExample`. Such a type exists only where the macros are built without overflow
  checks: with them, counting the tags (`crates/bindings-macro/src/sats.rs:468`) fails at expansion.
- `read_bytes_source_into` adds the room it offered, not the bytes it got, to the buffer's length
  (`crates/bindings/src/rt.rs:541-544`). See `BytesIo.ReadBytesSource` and `BytesIo.TornExample`.
- Renaming a server and moving its host in one edit loses a default stored as the old nickname,
  because of the `else if` in `crates/cli/src/config.rs:417-425`. See `CliServers.RawConfig.EditServer`
  and `CliServers.LostDefaultExample`.
- Saving over a document that has a table of servers keeps one of several servers that share a
  nickname or host. See `CliDocument.Save` and `CliDocument.SharedHostExample`.
- The recursion of the publish list has no result when a cycle is reachable from the roots. See
  `PublishOrder.SolvableIff` and `PublishOrder.CycleExample`.

## Model

| member | source | states |
|---|---|---|
| `CsEquality.EqualsCorrect` | crates/bindings-csharp/BSATN.Codegen/Type.cs:83-101 | For every nesting of value, reference, array and list types and every two values, nulls included, the emitted statement runs without error, declares `outVar` as their logical equality, and leaves every other local as it was at every nesting level |
| `CsEquality.EqualsSequences` | crates/bindings-csharp/BSATN.Codegen/Type.cs:159-190 | The same for arrays and lists: null tests, length test and search loop together give sequence equality |
| `CsEquality.EqualsFor` | crates/bindings-csharp/BSATN.Codegen/Type.cs:176-188 | The loop over two sequences of one length stores whether all pairs of elements are equal, although it breaks at the first that is not |
| `CsEquality.EqualsListStep` | crates/bindings-csharp/BSATN.Codegen/Type.cs:224-255 | One iteration over lists, which copies both elements to temporaries, goes on untouched if they are equal, and otherwise clears the result and breaks |
| `CsEquality.EqualsArrayStep` | crates/bindings-csharp/BSATN.Codegen/Type.cs:176-188 | The same over arrays, where the indexed expressions themselves are passed down to the next level |
| `CsEquality.ReferenceEquals` | crates/bindings-csharp/BSATN.Codegen/Type.cs:140-145 | The null-guarded call never dereferences null and is logical equality on references |
| `CsHash.HashCorrect` | crates/bindings-csharp/BSATN.Codegen/Type.cs:112-148 | The emitted hash statement runs without error on every value of the type, declares `outVar` as its recursive hash, and leaves every other local as it was |
| `CsHash.HashSequence` | crates/bindings-csharp/BSATN.Codegen/Type.cs:192-213 | Arrays and lists: 0 for null, otherwise the mix of the element hashes in order, through the accumulator of the current level |
| `CsLanguage.SearchFor` | crates/bindings-csharp/BSATN.Codegen/Type.cs:176-188 | Any counted loop whose iterations either change nothing or clear the result and break stores the conjunction of its tests |
| `CsProduct.EqualsMethodCorrect` | crates/bindings-csharp/BSATN.Codegen/Type.cs:602-611 | The generated `Equals` never throws and returns whether all members are logically equal, for every list of members |
| `CsProduct.HashMethodCorrect` | crates/bindings-csharp/BSATN.Codegen/Type.cs:549-556 | The generated `GetHashCode` never throws and combines the logical hashes of the members; 0 if there are none. `CsHashLaws` says what that amounts to |
| `CsProduct.OpEqualsIsEquivalence` | crates/bindings-csharp/BSATN.Codegen/Type.cs:624-629 | Given lawful `Equals` of the leaf types, the generated `==` is reflexive, symmetric and transitive on null and all instances |
| `CsProduct.OperatorsAgree` | crates/bindings-csharp/BSATN.Codegen/Type.cs:613-636 | `==`, `!=` and `Equals(object?)` never throw and all decide one relation: two nulls, or two instances with logically equal members; an object of another class equals no instance |
| `CsProduct.EqualInstancesHashAlike` | crates/bindings-csharp/BSATN.Codegen/Type.cs:549-637 | Two instances that the generated `Equals` accepts get the same generated hash code, given leaf types for which that holds |
| `CsProduct.LogicalEqTrans` | crates/bindings-csharp/BSATN.Codegen/Type.cs:83-101 | Logical equality is transitive at every nesting of arrays and lists |
| `CsProduct.LogicalEqHash` | crates/bindings-csharp/BSATN.Codegen/Type.cs:104-112 | Logically equal values have the same recursive hash at every nesting |
| `CsHashLaws.LogicalEqIsEquality` | crates/bindings-csharp/BSATN.Codegen/Type.cs:83-101 | Over leaf types compared by identity, logical equality is equality of the values, at every nesting |
| `CsHashLaws.LogicalHashTells` | crates/bindings-csharp/BSATN.Codegen/Type.cs:104-148 | Where leaf hashes and mixing do not collide, the recursive hash tells all logically different values apart: it depends on every element, their order and number, and null |
| `CsHashLaws.HashMethodAppends` | crates/bindings-csharp/BSATN.Codegen/Type.cs:549-556 | The generated hash of no members is 0, of one member its own hash, and one more member is combined with the rest by `^` |
| `CsHashLaws.HashMethodSensitive` | crates/bindings-csharp/BSATN.Codegen/Type.cs:549-556 | If `^` can be undone, instances whose logical hashes differ at exactly one member, whichever it is, get different generated hashes |
| `CsHashLaws.HashMethodTells` | crates/bindings-csharp/BSATN.Codegen/Type.cs:549-556 | So do instances that are logically equal but for one member, where nothing collides |
| `CsHashLaws.HashMethodAnyOrder` | crates/bindings-csharp/BSATN.Codegen/Type.cs:549-556 | If `^` is commutative and associative, the generated hash is the same for every order of the members |
| `CsNames.GeneratedInjective` | crates/bindings-csharp/BSATN.Codegen/Type.cs:161-167 | The names the generator makes up are spelled apart over all roles and levels, whatever the members are called |
| `CsNames.ReservedIff` | crates/bindings-csharp/BSATN.Codegen/Type.cs:547-550 | A member name is spelled like one of them if and only if it starts with `___eq` or `___hash`, or is one of six prefixes followed by a decimal numeral |
| `CsNames.RenderInjective` | crates/bindings-csharp/BSATN.Codegen/Type.cs:161-167 | With members none of which is such a name, no two identifiers of the emitted code are spelled alike |
| `CsCapture.EqualsMethodApart` | crates/bindings-csharp/BSATN.Codegen/Type.cs:602-611 | In the generated `Equals` no two identifiers are spelled alike, for all members and types |
| `CsCapture.HashMethodApartIff` | crates/bindings-csharp/BSATN.Codegen/Type.cs:547-556 | In the generated `GetHashCode` no two identifiers are spelled alike, whatever the types of the members, if and only if no member is called like one of its locals: `___hash` and another member, or a counter, temporary, accumulator or inner result |
| `CsCapture.HashApartIff` | crates/bindings-csharp/BSATN.Codegen/Type.cs:547-556 | For given members and types no two identifiers of the generated `GetHashCode` are spelled alike if and only if no member is called like the hash of one, or like a counter, accumulator, temporary or inner result of a layer of arrays or lists that a member's type has |
| `CsCapture.ReservedMemberCaptured` | crates/bindings-csharp/BSATN.Codegen/Type.cs:547-556 | Next to a member `foo` the field `___hashfoo` is hidden by a local, and so is a list called `___i0` |
| `CsSpelled.ExecAlike` | crates/bindings-csharp/BSATN.Codegen/Type.cs:161-213 | Any statement whose identifiers are spelled apart runs over the spellings step for step as over the identifiers: same outcome, and the same value in every local |
| `CsSpelled.EqualsSpelledSame` | crates/bindings-csharp/BSATN.Codegen/Type.cs:602-611 | The text of `Equals`, with its variables known by spelling only, returns what the model's `Equals` does, for all members, types and fields |
| `CsSpelled.HashSpelledSame` | crates/bindings-csharp/BSATN.Codegen/Type.cs:547-556 | So does the text of `GetHashCode` when no member is called like a local that the types make it use |
| `OffsetRanges.AddPointAdds` | crates/bench/benches/delete_table.rs:329-337 | A new one-row range keeps the page sorted, disjoint and maximally merged and adds exactly that row |
| `OffsetRanges.ExtendEndAdds` | crates/bench/benches/delete_table.rs:339-351 | Growing a range at its end, or joining it with its successor, keeps the page canonical and adds exactly that row |
| `OffsetRanges.ExtendStartAdds` | crates/bench/benches/delete_table.rs:352-364 | The same for growing a range at its start or joining it with its predecessor |
| `OffsetRanges.CutOutDrops` | crates/bench/benches/delete_table.rs:386-407 | Removing a row from the range that holds it, in all four branches, keeps the page canonical, loses exactly that row and never wraps around 16 bits |
| `OffsetRanges.EitherNeighbour` | crates/bench/benches/delete_table.rs:251-291 | When two ranges are next to the row, the ranges after the insert are the same whichever of the two the search returns |
| `OffsetRanges.CanonicalUnique` | crates/bench/benches/delete_table.rs:219-232 | Two canonical lists of ranges that hold the same rows are the same list |
| `DeleteTable.MembersDeterminePages` | crates/bench/benches/delete_table.rs:232-237 | The set of members determines the ranges of every page |
| `DeleteTable.BinarySearchBy` | crates/bench/benches/delete_table.rs:305-309 | The search finds a match if there is one, reports it as its last probe, and otherwise returns the one position between smaller and greater elements |
| `DeleteTable.FindRangeToInsert` | crates/bench/benches/delete_table.rs:251-291 | The flags belong to the range returned; if no range holds or touches the row, the position separates the ranges before it from those after it |
| `DeleteTable.InsertInto` | crates/bench/benches/delete_table.rs:329-371 | On one page: reports whether the row is new, adds exactly it if it is, and otherwise loses exactly the rows of its range beyond it; always canonical |
| `DeleteTable.RemoveFrom` | crates/bench/benches/delete_table.rs:380-408 | On one page: reports whether the row was there, removes exactly it, and stays canonical |
| `DeleteTable.Table.Contains` | crates/bench/benches/delete_table.rs:302-311 | True of exactly the members |
| `DeleteTable.Table.Insert` | crates/bench/benches/delete_table.rs:312-371 | Answers like the plain set; acts like it, and keeps `len` exact, if and only if the row and its successor are not both members already |
| `DeleteTable.Table.Remove` | crates/bench/benches/delete_table.rs:372-409 | Removes exactly that member, answers like the plain set, never underflows `len`, and keeps `len` exact if it was |
| `DeleteTable.Table.Iter` | crates/bench/benches/delete_table.rs:410-421 | Lists each member exactly once, ordered by page and offset |
| `DeleteTable.RunAgrees` | crates/bench/benches/delete_table.rs:125-145 | Over every sequence of operations the table's members are those of the plain set throughout if and only if no insert is inside a run of the plain set at that moment |
| `DeleteTable.Table.Run` | crates/bench/benches/delete_table.rs:293-425 | Over every sequence of operations every answer is the plain set's for the members at that moment, and `len` is their number at the end if and only if no insert was inside a run |
| `DeleteTable.InsertCounts` | crates/bench/benches/delete_table.rs:312-371 | The member count grows as `len` does exactly when no run is cut |
| `DeleteTable.ReinsertExample` | crates/bench/benches/delete_table.rs:271-281 | Three deleted rows in a row; deleting the first again brings the other two back |
| `OffsetRanges.AlignedIsMultiple` | crates/bench/benches/delete_table.rs:219-232 | The row starts of the model are the multiples of the row size, which is what the contracts of the table ask of an offset |
| `HostRows.Host.Advance` | crates/core/src/host/wasmtime/wasm_instance_env.rs:576-633 | The host's loop meets the documented contract: whole items that fit, at least one unless all are done, "too small" only if the next one does not fit, exhaustion destroys the iterator once and touches no other |
| `HostRows.FillBuffer` | crates/core/src/host/wasmtime/wasm_instance_env.rs:599-618 | Copies the longest run of whole items that fits, and leaves the others as they are |
| `HostRows.Host.Close` | crates/core/src/host/wasmtime/wasm_instance_env.rs:646-658 | Succeeds exactly on a live iterator, destroys that session once and no other |
| `HostRows.RowIter.TryRead` | crates/bindings-sys/src/lib.rs:1102-1123 | One call: either whole items are appended after what the buffer held, or nothing has changed and the size needed exceeds the room there was |
| `HostRows.RowIter.Read` | crates/bindings-sys/src/lib.rs:1102-1123 | Makes at most two calls of the host, keeps the bytes already in the buffer, appends whole items in order, marks the iterator exhausted exactly when the host destroyed it, and calls the host with no dead handle |
| `HostRows.RowIter.Drop` | crates/bindings-sys/src/lib.rs:1131-1142 | After the drop the iterator's session has been ended exactly once, by exhaustion or by closing, without a call on a dead handle, and no other session is touched, even if its handle has been reused |
| `TableScan.CollectIter` | crates/core/src/host/instance_env.rs:109-159 | The chunks are non-empty and cut at the first row boundary past the threshold, the last one excepted, and together hold all rows in order, or none if rows take no bytes |
| `TableScan.TableIter.Next` | crates/bindings/src/table.rs:998-1020 | Yields the first pending row and leaves the others, for every chunking; `None` exactly when no row is pending, and then always; on an eager host it is exhausted together with a single row |
| `TableScan.TableIter.ExhaustedIff` | crates/bindings/src/table.rs:993-995 | The scan reports exhaustion if and only if no row is pending and the host has ended the session |
| `TableScan.DecodeAt` | crates/bindings/src/table.rs:1003-1007 | Decoding at the cursor gives the first row the remaining bytes stand for, and the bytes after it stand for the others |
| `TableScan.Drain` | crates/bindings/src/table.rs:998-1020 | Reading to the end yields exactly the pending rows, in order, and leaves the iterator exhausted |
| `TableScan.Scan` | crates/bindings/src/table.rs:966-1020 | Host and module together return the rows of the table, once each, in order, unless rows take no bytes, and then none; the host's session is ended exactly once, and no call is made with a dead handle |
| `TableScan.Find` | crates/bindings/src/table.rs:336-353 | The lookup on a unique index returns the matching row or `None`, or its assertion fails; the assertion holds if and only if the reply that carried the row also reported exhaustion, and always if there is no row or the host does so |
| `HostRows.LateExhaustionAllowed` | crates/bindings-sys/src/lib.rs:293-323 | The documented contract allows a reply with the last row that does not report exhaustion |
| `TableScan.LostRowExample` | crates/bindings/src/table.rs:1003-1005 | A row type and a row that no scan returns |
| `HostRows.RowIter.Untouched` | crates/bindings-sys/src/lib.rs:1096-1142 | Calls for one session leave the iterators of all others valid and with the same rows to come |
| `HostRows.RowIter.UntouchedByOpen` | crates/bindings-sys/src/lib.rs:1096-1142 | A new session, on a new or a reused handle, leaves all iterators valid and with the same rows to come |
| `ManyScans.OpenAnother` | crates/bindings/src/table.rs:966-996 | Opening a scan beside others on any free handle gives it a session of its own and changes nothing for the others |
| `ManyScans.NextOf` | crates/bindings/src/table.rs:998-1020 | Among several scans of one host, a step of one yields its next row and changes nothing for the others |
| `ManyScans.DropOf` | crates/bindings-sys/src/lib.rs:1131-1142 | Dropping one ends its session exactly once and changes nothing for the others |
| `ManyScans.RunScans` | crates/bindings/src/table.rs:966-1020 | In every run that opens, advances and drops scans in any order, with buffers from the pool and whatever free handles the host gives: each step is answered as if the scan were alone with its table. At the end every session has ended exactly once, no call was made with a dead handle, and all buffers are back |
| `ScanArgs.BufPool.Take` | crates/bindings/src/lib.rs:827-834 | The buffer is empty and held by nobody else; it is a pooled one if there is any, and otherwise new with the default capacity; all buffers are conserved |
| `ScanArgs.BufPool.Drop` | crates/bindings/src/lib.rs:848-854 | The buffer goes back empty, no held buffer changes, and all buffers are conserved |
| `ScanArgs.RunPool` | crates/bindings/src/lib.rs:817-854 | In every interleaving of takes, writes and drops each owner finds in its buffer exactly what it wrote, as if every buffer were new and private |
| `ScanArgs.GetArgs` | crates/bindings/src/table.rs:784-808 | The slices handed to the host are exactly the encodings of the prefix and of the two bounds, whatever the pooled buffer was used for before: each bound is its tag 0, 1 or 2 and its value. The host decodes them to the prefix and to the bounds given, one for both ends if it is single |
| `ScanArgs.SerializeTerm` | crates/lib/src/filterable_value.rs:112-126 | A single bound is written once and has no end index; a range is written as two bounds with the index between them |
| `ScanArgs.BoundFormat` | crates/sats/src/ser/impls.rs:93-97 | A bound is the byte 0, 1 or 2 for included, excluded and unbounded, and then its value |
| `ScanArgs.SlicesDecode` | crates/core/src/db/datastore/locking_tx_datastore/mut_tx.rs:632-684 | The host's decoding of the wanted slices is the query, for every prefix length and both kinds of bounds |
| `ScanArgs.PrefixDecodes` | crates/core/src/db/datastore/locking_tx_datastore/mut_tx.rs:632-684 | Any number of column values written one after the other decode to those values and leave what follows |
| `BytesIo.WriteToSink` | crates/bindings/src/rt.rs:563-579 | For every way the host splits the writes, exactly the given bytes arrive, in order; a panic leaves a prefix of them delivered |
| `BytesIo.ReadBytesSource` | crates/bindings/src/rt.rs:531-560 | Takes everything from the source. By the record of the host's calls: the source's bytes follow the buffer's as a prefix of the result if and only if none arrived after an unfilled read, and are all of it if and only if every read filled its room. A host that fills what it can always gives a prefix. Each call is given all the room there is: none after an unfilled read, and at least 1024 bytes after a filled one |
| `BytesIo.TornExample` | crates/bindings/src/rt.rs:541-555 | Three calls that a host may answer so, after which the bytes are not a prefix of the buffer |
| `Bsatn.RoundTrip` | crates/bindings-macro/src/sats.rs:591-618 | Decoding an encoding followed by any bytes gives the value back and leaves those bytes, for all nested types |
| `Bsatn.RoundTripIff` | crates/bindings-macro/src/sats.rs:601-617 | The round trip holds of a value if and only if all of its variant indices fit the tag byte |
| `Bsatn.WrappedTagExample` | crates/bindings-macro/src/sats.rs:601-617 | The last variant of a sum of 257 is written with tag 0 and comes back as the first |
| `Bsatn.SmallSumsSmallTags` | crates/bindings-macro/src/sats.rs:526-531 | They all do if no sum of the type has more than 256 variants |
| `Bsatn.DecodeIsCanonical` | crates/bindings-macro/src/sats.rs:415-421 | Whatever decodes is a value of the type, and the bytes consumed are its encoding |
| `Bsatn.EncodeFormat` | crates/sats/src/bsatn/ser.rs:56-140 | The bytes themselves, for all nested values: a boolean is 0 or 1, a number its little-endian bytes, an array its length in four of them and its elements in order, a product its fields in order, a variant its index and its payload |
| `Bsatn.LeByteAt` | crates/sats/src/bsatn/ser.rs:56-140 | Byte `i` of a number is its digit of 256 to the `i` |
| `Bsatn.PrefixFree` | crates/bindings-csharp/BSATN.Codegen/Type.cs:450-473 | Encodings are self-delimiting: none is a prefix of another value's |
| `Bsatn.EncodeDefined` | crates/sats/src/bsatn/ser.rs:60-69 | Serializing fails if and only if the value holds an array of 2^32 elements or more |
| `Bsatn.EmptyEncoding` | crates/bindings/src/table.rs:1003-1005 | A value takes no bytes if and only if its type is made of nothing but empty products, so the scan's test for remaining bytes sees all other rows |
| `ReprC.OffsetOf` | crates/bindings-macro/src/sats.rs:364-365 | A field starts at the first multiple of its alignment after the fields before it |
| `ReprC.LayoutIsC` | crates/bindings-macro/src/sats.rs:364-365 | The first field starts at 0, each other at the first multiple of its alignment past the one before, and the struct ends at the first multiple of the greatest alignment past the last |
| `ReprC.SizeAligned` | crates/bindings-macro/src/sats.rs:364-365 | With alignments that are powers of two the size is a multiple of every one of them |
| `ReprC.TrailingPaddingExample` | crates/bindings-macro/src/sats.rs:364-365 | A word and a byte take eight bytes, so the guard fails |
| `ReprC.PaddinglessIff` | crates/bindings-macro/src/sats.rs:364-365 | For all field sizes and alignments, the size of the C layout is the sum of the field sizes if and only if every field offset is the sum of the sizes before it and no padding follows the last |
| `ReprC.RawSerializeIff` | crates/bindings-macro/src/sats.rs:559-587 | The raw memory of a struct is its field-by-field encoding, for every value and whatever is in the padding, if and only if the guard holds |
| `ReprC.RawDeserializeAgrees` | crates/bindings-macro/src/sats.rs:355-377 | Under the guard, reading raw memory and decoding field by field agree on every input, short ones and trailing bytes included |
| `NamedVisitor.VisitNamed` | crates/bindings-macro/src/sats.rs:422-440 | Succeeds if and only if the incoming names are a permutation of distinct declared ones and all values are good, and then each field has the value of the entry that names it, as from the positional visitor on the values in declared order. Otherwise the error is that of the first entry that is unknown, repeated or bad, or of the first field without an entry |
| `NamedVisitor.CollectNamed` | crates/bindings-macro/src/sats.rs:423-435 | The loop fills each field with the value of the one entry that names it, or stops at the first entry with something wrong and reports that |
| `NamedVisitor.VisitSeq` | crates/bindings-macro/src/sats.rs:415-421 | Element `i` becomes field `i`; succeeds if and only if all fields have a good element; the error is a bad value, or the index of the first field without an element, exactly when no field before it fails |
| `NamedVisitor.FieldIdent` | crates/bindings-macro/src/sats.rs:450-455 | The index of the first declared field with that name, or none |
| `CliServers.RawConfig.constructor` | crates/cli/src/config.rs:158-177 | The initial configuration is unambiguous and its default names a server |
| `CliServers.RawConfig.FindServer` | crates/cli/src/config.rs:179-195 | Finds the first server that a string names as nickname or host, if there is one |
| `CliServers.RawConfig.AddServer` | crates/cli/src/config.rs:216-250 | Refused exactly when the nickname or the host is in use; keeps names unambiguous and the default resolving |
| `CliServers.RawConfig.SetDefaultServer` | crates/cli/src/config.rs:274-283 | Succeeds exactly when the string names a server, and then the default resolves |
| `CliServers.RawConfig.RemoveServer` | crates/cli/src/config.rs:285-307 | Removes one server; the default is cleared if it named that server, and resolves if it did before |
| `CliServers.RawConfig.EditServer` | crates/cli/src/config.rs:364-429 | An edit stores exactly the new values given, in the server it found and no other, and reports the values replaced. Every edit keeps names unambiguous; the default still resolves if and only if the edit does not change both identifiers of the server whose nickname is the default, and then it names the same server |
| `CliServers.RunUnambiguous` | crates/cli/src/config.rs:157-429 | After every run of operations from the initial configuration no string names two servers |
| `CliServers.UnambiguousIff` | crates/cli/src/config.rs:179-195 | That is: all nicknames differ, all hosts differ, and no nickname is the host of another server |
| `CliServers.RunResolves` | crates/cli/src/config.rs:157-429 | Over every run the default, when set, names a server throughout if and only if no edit that goes through changes both identifiers of the server whose nickname is the default at that moment |
| `CliServers.OneIdentifierResolves` | crates/cli/src/config.rs:364-429 | So it does in every run whose edits change the nickname or the host but not both |
| `CliServers.Run` | crates/cli/src/config.rs:157-429 | The object follows these states through every run; unless an edit lost it, the default, if set, names exactly one server |
| `CliServers.LostDefaultExample` | crates/cli/src/config.rs:417-425 | Renaming and moving the default server of the initial configuration in one edit leaves the default naming nothing |
| `CliDocument.UpdateTableReads` | crates/cli/src/config.rs:38-43 | A table updated from a server has its fields under their keys and reads back as that server, whatever it held, and keeps its other keys and the formatting of every string that stays |
| `CliDocument.ReadServerIff` | crates/cli/src/config.rs:100-116 | A table reads as a server if and only if it has the host and the protocol as strings, and the nickname and the key as strings or not at all |
| `CliDocument.ReadConfigIff` | crates/cli/src/config.rs:457-480 | A document loads as a configuration if and only if it has the default and the tokens as strings or not at all, and an array of tables that read as its servers in order, or none |
| `CliDocument.IndexOfLast` | crates/cli/src/config.rs:680-685 | The map of servers by name holds the last one of each name |
| `CliDocument.MergeTables` | crates/cli/src/config.rs:680-708 | The merged tables are the old ones whose name is in use, in their old order, each updated from the server of its own name, and then new ones for servers without a table. They read back as the servers up to order if and only if no two servers share a nickname-or-host |
| `CliDocument.OwnTables` | crates/cli/src/config.rs:687-703 | Merging tables with their own servers, one for each, updates them in place: same number, same order |
| `CliDocument.SharedHostExample` | crates/cli/src/config.rs:680-685 | A document that loads, and whose two servers share a name |
| `CliDocument.Save` | crates/cli/src/config.rs:645-711 | The saved document holds the default and the tokens under their keys, with their old formatting, and reads back with the same ones, and with the same servers up to order if and only if no two share a nickname-or-host or there was no table to merge into. Foreign keys are untouched, and tables that stay keep their order and formatting |
| `CliDocument.SaveAndLoad` | crates/cli/src/config.rs:605-734 | Saving an unambiguous configuration over any loadable document and loading it again changes the answer of no name lookup |
| `CliDocument.LookupAnyOrder` | crates/cli/src/config.rs:179-186 | With unambiguous names the order of the servers shows in no lookup |
| `PublishOrder.FewerReachable` | tools/find-publish-list.py:37-41 | The recursion ends: a dependency reaches strictly fewer crates |
| `PublishOrder.OwnDeps` | tools/find-publish-list.py:6-14 | Exactly the directories of the dependencies with the SpacetimeDB prefix |
| `PublishOrder.OwnDepsInOrder` | tools/find-publish-list.py:6-14 | They stay in the order of the manifest |
| `PublishOrder.ProcessCrate` | tools/find-publish-list.py:16-43 | The loop builds the depth-first list of dependencies |
| `PublishOrder.ListsHold` | tools/find-publish-list.py:61-66 | The collected list mentions exactly the crates reachable from those it starts with |
| `PublishOrder.ListsFollow` | tools/find-publish-list.py:68-72 | Every mention in it is followed by mentions of all dependencies of that crate |
| `PublishOrder.DedupOrders` | tools/find-publish-list.py:45-52 | Keeping first mentions only keeps dependencies before their dependents |
| `PublishOrder.OrderedDedup` | tools/find-publish-list.py:45-52 | The loop with its seen-set keeps exactly the first mentions |
| `PublishOrder.PublishList` | tools/find-publish-list.py:61-74 | For every graph and list of roots from which no cycle is reachable: each reachable crate exactly once, after all of its dependencies, and no other |
| `PublishOrder.SolvableIff` | tools/find-publish-list.py:16-43 | The recursion has a result on all crates it gets to if and only if no cycle is reachable from the roots |
| `PublishOrder.CycleExample` | tools/find-publish-list.py:37-41 | Two crates that depend on each other, which stop the script from one of them and not from an unrelated root |
| `MemoQuery.StepInv` | crates/bench/src/sqlite.rs:225-260 | Every step of every thread keeps the lock's exclusion, the origin of each entry, what became of each generator called, and every entry already made |
| `MemoQuery.MemoIsConsistent` | crates/bench/src/sqlite.rs:225-260 | Under every schedule, panicking generators included: at most one generator runs per key, no entry ever changes, all callers for a key get the same string, and it is the result of the generator that ran |
| `MemoQuery.PanicsOnlyIfPoisoned` | crates/bench/src/sqlite.rs:225-260 | Under every schedule the lock is poisoned if and only if a generator that was called panicked; its caller panics, and no caller panics without that |
| `MemoQuery.PoisonStays` | crates/bench/src/sqlite.rs:225-238 | After a panic the lock stays poisoned, and a call that has not begun can only panic |
| `MemoQuery.CachedNeedsNoWrite` | crates/bench/src/sqlite.rs:225-233 | A call for a key that is cached when it starts returns without ever asking for the write lock, in every run |
| `MemoQuery.WaitsIff` | crates/bench/src/sqlite.rs:227-238 | A thread waits exactly where the lock makes it: a reader for a writer, a writer for readers and a writer |
| `MemoQuery.MemoIsDirect` | crates/bench/src/sqlite.rs:225-260 | If generators depend on the key alone, every caller gets what its own generator would have returned |
| `MemoQuery.SomeThreadCanGo` | crates/bench/src/sqlite.rs:225-260 | No deadlock: while a call is unfinished, some thread can take a step |
| `MemoQuery.StepDecreases` | crates/bench/src/sqlite.rs:225-260 | Every step taken lowers a measure on the state, whatever thread takes it |
| `MemoQuery.StepsBounded` | crates/bench/src/sqlite.rs:225-260 | No schedule, however long, takes more than six steps for each call |
| `MemoQuery.MaximalRunFinishes` | crates/bench/src/sqlite.rs:225-260 | A run that no thread can continue has finished all calls, and all have returned a string if and only if no generator that was called panicked |
| `MemoQuery.MaximalRunReturns` | crates/bench/src/sqlite.rs:225-260 | If generators depend on the key alone and none panics, such a run has given every caller what its own generator would have returned |
| `NthName.Recombines` | crates/bench/src/schemas.rs:334-347 | The mixed-radix digits recombine to the number, which is the source's own assertion |
| `NthName.NthNameInjective` | crates/bench/src/schemas.rs:262-347 | No two numbers get the same name |
| `NthName.NthNameExample` | crates/bench/src/schemas.rs:334-347 | The 1057th name, with its three parts in their places |
| `NthName.FirstKnown` | crates/bench/src/schemas.rs:262-295 | The 32 first names are pairwise different, each told from its length and four letters |
| `NthName.LastKnown` | crates/bench/src/schemas.rs:297-330 | The same for the 32 last names |
| `Decimal.PrintInjective` | crates/bench/src/schemas.rs:346-346 | Decimal numerals are unique |
| `Decimal.NumeralIff` | crates/bindings-csharp/BSATN.Codegen/Type.cs:166-167 | The printed numbers are exactly the strings of digits without a leading zero |

## Left out

- The parsing of C# symbols, diagnostics and the layout of the emitted text.
- Record types, for which no `Equals` is generated, and the hash of tagged enums (`Type.cs:475-493`).
- `Equals` and `GetHashCode` of leaf types, the mixing in `System.HashCode` and `^` on hash codes are parameters; that the leaf types are lawful is assumed where it is needed. Identity of array objects is not modelled, because the emitted code compares references only with null.
- DeleteTable.BinarySearchBy: models the contract of the standard library's search, including that its last probe is the index returned, and not the exact sequence of its probes.
- DeleteTable.Table.Insert: offsets are those of rows, that is, multiples of the row size, with the offset plus the row size below 2^16.
- The bit set, hash set and B-tree versions of the delete table, and the benchmark driver.
- The real datastore and its indexes: the host is its iterator table, its chunked writer and its argument decoding.
- HostRows.Host.Advance: `eager` is a promise that some hosts make and others do not; every result that does not mention it holds of every host that meets the documented contract.
- BytesIo.WriteToSink: a host write that succeeds takes at least one byte when there is one.
- BytesIo.ReadBytesSource: a host read that does not finish the source gives at least one byte when there is room; the reuse of one buffer across calls (`rt.rs:510-525`) and the invalid source are left out.
- Invalid handles and other error codes that the documented contract rules out for these callers.
- Bsatn.RoundTrip: every fixed-width primitive is its bit pattern in bytes; UTF-8 strings are not modelled, and neither are the contents of decoding errors.
- Sums by variant name (`visit_name`), which BSATN does not use.
- ReprC.RawSerializeIff: little-endian targets.
- The host part of a URL is an uninterpreted function; fingerprints and token setters only store a value.
- TOML text, file writes and races between processes; formatting is a tag carried by each string.
- PublishOrder.PublishList: the recursive mode; on a reachable cycle the recursion has no result and Python stops it at its depth limit, which is not modelled.
- MemoQuery.SomeThreadCanGo: fairness of the lock is not modelled; with the bound on steps it gives that runs end, not that a given thread is served in time.
- NthName.NthNameInjective: the index of a name is computed in `usize` in the source; the model has no width, which is right for 64 bits.
- The random generators and row builders of the benchmarks, the C++ SDK, the macros for tables and reducers, logging and time.
