# A Dafny model of the `ritm_device_tree` core

This project models, in Dafny, the flattened-device-tree library used by
the ritm hypervisor. It also covers two small pieces of the hypervisor
itself. Every operation is a pure function over immutable data, and the
properties the library promises are proved about those functions.

**The read-only reader (`fdt`).** An accepted blob (`FdtHeader.New`) has:
- a 40-byte big-endian header, checked in a fixed order;
- a memory-reservation block;
- a structure block of tokens;
- a strings block.

Nodes and properties are offsets into the blob. Two cursors walk them:
- the property cursor (`FdtPropIter`);
- the child cursor (`FdtChildIter`).

Each cursor has Start, Running and Error states, and the first error
stops it for good. Path lookup is `Fdt::find_node`.

**The editable model (`model`).**
- `DeviceTreeNode` is a name plus two insertion-ordered maps, one for
  properties and one for children (`IndexMap`, modelled as a sequence of
  key/value pairs).
- `DeviceTreeProperty` is an owned name and value.
- `DeviceTree` is a root plus the reservations.
- The model also covers conversion from the reader (`from_fdt`) and path
  lookup (`find_node_mut`). Writing through the reference that
  `find_node_mut` returns is modelled as `ModelTree.ReplaceAt`.

**The overlay engine (`model::overlay`).**
- `PhandleMap::new` scans the base tree in pre-order for the largest
  phandle.
- `apply_overlay` then takes each fragment's `target-path` and its
  `__overlay__` child, and merges the child into the target.
- During the merge, `fixup_node` renumbers each incoming phandle and
  records (old, new) pairs.
- `fixup_property` rewrites every cell of a property value with those
  pairs, applying them one after another in the order they were recorded.
  With (1, 2) recorded before (2, 3), a cell holding 1 ends up as 3; see
  `PhandleCells.SequentialPairs`.
- A child that matches an existing child is fixed up twice: once before
  the recursive merge and again inside it. `DoubleFixup` works one such
  case out exactly.

**The writer (`writer::to_bytes`, `DeviceTree::to_dtb`).**
- The output is the header (version 17, last compatible version 16), the
  reservation block with its all-zero terminator, the structure block
  written in pre-order and ended by one END token, and the strings block.
- Property names are interned in first-use order.

**From the hypervisor:**
- `SimpleMap`, the fixed-capacity map searched front to back;
- the PSCI function-number and return-code conversions, from chapter 5 of
  the Arm Power State Coordination Interface specification (DEN 0022).

**How failure is modelled.**
- Rust panics and non-termination are outcomes of their own:
  `Wrappers.Run<T>` is `Returns(T) | Panics | Hangs`.
- Errors are `Result` values carrying the source's error kind and byte
  offset.
- Arithmetic is on unbounded integers. Where the source's 32-bit or
  `usize` arithmetic matters, it is written out: `usize::saturating_add`,
  `u32::try_from(..).expect(..)` in the writer, and the overflow-checked
  `+ 1` of the phandle counter.

## Model

Paths are relative to the repository root: `ritm_device_tree/src/...` is
the device-tree library, and `src/...` is the hypervisor.

| member | source | states |
|---|---|---|
| FdtDefs.TokenFromWord | ritm_device_tree/src/fdt/mod.rs:124-136 | Exactly the words 1, 2, 3, 4 and 9 decode to a token; any other word is handed back unchanged as the error |
| FdtDefs.TokenRoundTrip | ritm_device_tree/src/fdt/mod.rs:124-136 | Decoding the word of a token gives the token back, and every word that decodes is that token's word |
| FdtDefs.Align | ritm_device_tree/src/fdt/mod.rs:509-511 | The aligned tag offset is a multiple of 4 in [x, x + 4) |
| FdtDefs.AlignLeast | ritm_device_tree/src/fdt/mod.rs:509-511 | No multiple of 4 at or above x lies below the aligned offset, so it is the least one |
| FdtDefs.AlignIdempotent | ritm_device_tree/src/fdt/mod.rs:509-511 | Aligning an aligned offset changes nothing |
| FdtDefs.SaturatingAdd | ritm_device_tree/src/fdt/mod.rs:235-283 | The header sums used by `validate_header` are the true sum when it fits in `usize` and `usize::MAX` otherwise |
| Bytes.Be32RoundTrip | ritm_device_tree/src/fdt/property.rs:56-60 | Four bytes read big-endian and written back are the same four bytes |
| Bytes.Be64RoundTrip | ritm_device_tree/src/fdt/property.rs:79-83 | Eight bytes read big-endian and written back are the same eight bytes |
| Bytes.Be32AtEncoded | ritm_device_tree/src/writer.rs:146-152 | A word the writer emits with `to_be_bytes` reads back as that word at its offset, whatever surrounds it |
| CStr.UntilNul | ritm_device_tree/src/fdt/mod.rs:439-442 | `from_bytes_until_nul` succeeds exactly when the slice holds a NUL, and gives the NUL-free bytes before the first one |
| CStr.WithNul | ritm_device_tree/src/fdt/property.rs:102-107 | `from_bytes_with_nul` succeeds exactly when the only NUL is the last byte, and gives the bytes before it |
| CStr.UntilNulOfTerminated | ritm_device_tree/src/fdt/property.rs:274-282 | A NUL-free string followed by NUL and anything else reads back as that string |
| Path.Segments | ritm_device_tree/src/fdt/mod.rs:392 | `split('/').filter(non-empty)` yields only non-empty, slash-free segments |
| Path.SegmentsOfJoin | ritm_device_tree/src/fdt/mod.rs:392 | Splitting the canonical path of a list of segments gives the list back |
| Path.SlashesOnly | ritm_device_tree/src/model/mod.rs:136 | A path made only of slashes, however many, has no segments and so names the root |
| FdtHeader.ReadHeader | ritm_device_tree/src/fdt/mod.rs:66-105 | Header field k is the big-endian word at byte 4k of the blob |
| FdtHeader.HeaderBytes | ritm_device_tree/src/writer.rs:38-67 | A written header is exactly 40 bytes, the size `to_bytes` asserts |
| FdtHeader.ReadHeaderBytes | ritm_device_tree/src/writer.rs:38-62 | Reading back the bytes of a written header gives the same ten fields, whatever follows |
| FdtHeader.ValidateHeader | ritm_device_tree/src/fdt/mod.rs:235-283 | Succeeds exactly when all six layout checks hold. The first failing check, in source order, decides the error: each of the six has its own message and field offset, and every failure is `InvalidHeader` |
| FdtHeader.New | ritm_device_tree/src/fdt/mod.rs:164-195 | Accepts exactly the valid blobs, keeping the buffer. Checks run in order: too short → `InvalidLength` at 0; bad magic → `InvalidMagic`; 17 outside [last_comp_version, version] → `UnsupportedVersion(version)`; totalsize ≠ length → `InvalidLength` at the totalsize field; then exactly the error `validate_header` reports |
| FdtHeader.ValidLayout | ritm_device_tree/src/fdt/mod.rs:235-283 | In an accepted blob the reservation block precedes the structure block, the structure block ends before the strings block, and the strings block ends inside the buffer |
| FdtHeader.HeaderParsedCorrectly | ritm_device_tree/src/fdt/mod.rs:555-568 | The unit-test header blob is accepted and its ten fields parse to the expected values |
| FdtHeader.InvalidMagicTest | ritm_device_tree/src/fdt/mod.rs:571-576 | Zeroing the first magic byte of that blob is reported as `InvalidMagic` |
| FdtHeader.InvalidLengthTest | ritm_device_tree/src/fdt/mod.rs:579-583 | Its first 10 bytes are reported as `InvalidLength` at offset 0 |
| FdtHeader.UnsupportedVersionTest | ritm_device_tree/src/fdt/mod.rs:586-591 | Setting its version to 16 is reported as `UnsupportedVersion(16)` |
| FdtReader.ReadToken | ritm_device_tree/src/fdt/mod.rs:406-411 | Panics exactly when the offset is past the buffer. `InvalidLength` exactly when fewer than 4 bytes remain. `BadToken(w)` carries the unknown word w. A returned token is the word at that offset |
| FdtReader.FindStringEnd | ritm_device_tree/src/fdt/mod.rs:446-456 | Returns one past the first NUL at or after `start`; `InvalidString` at `start` exactly when no NUL follows |
| FdtReader.StringAtOffset | ritm_device_tree/src/fdt/mod.rs:429-444 | A returned string is valid UTF-8, NUL-free and stored NUL-terminated at the offset, before the end bound. `InvalidOffset` exactly when the bounds leave the buffer; otherwise failures are `InvalidString` |
| FdtReader.StringAtOffsetOf | ritm_device_tree/src/fdt/mod.rs:429-444 | Partner of `StringAtOffset`: any NUL-free UTF-8 string stored there and terminated before the bound is what it returns |
| FdtReader.String | ritm_device_tree/src/fdt/mod.rs:414-426 | A strings-block entry lies at that offset, is terminated inside the block, and is valid UTF-8. `InvalidLength` exactly when the offset is not below the block size. Errors report the absolute offset |
| FdtReader.StringUnique | ritm_device_tree/src/fdt/mod.rs:414-426 | Partner of `String`: in a blob whose strings block fits, the string stored at an offset is the one returned |
| FdtReader.NextPropertyOffset | ritm_device_tree/src/fdt/mod.rs:497-507 | Panics exactly past the buffer. `InvalidLength` exactly when the length word is cut short. Otherwise the next tag is at align(o + 8 + len) |
| FdtReader.SkipProps | ritm_device_tree/src/fdt/mod.rs:466-476 | The property loop never hangs. On success it stops inside the buffer at a BEGIN_NODE, END_NODE or END token, and only NOP tokens and whole PROP records, each jumped to its padded end, lie between the start and that token |
| FdtReader.SkipNops | ritm_device_tree/src/fdt/property.rs:224-261 | The NOP skip stops at the first word at or after the start that is not a NOP, or at the end of the buffer, with only NOPs in between |
| FdtReader.NextSiblingOffset | ritm_device_tree/src/fdt/mod.rs:458-495 | A returned offset lies past the node's BEGIN_NODE word and within the buffer, just after an END_NODE word (which one: `FdtReader.NextSiblingCloses`) |
| FdtReader.SkipChildren | ritm_device_tree/src/fdt/mod.rs:479-492 | A returned offset lies at least one word on and within the buffer, just after an END_NODE word (which one: `FdtReader.SkipChildrenCloses`) |
| FdtReader.NextSiblingCloses | ritm_device_tree/src/fdt/mod.rs:458-495 | A sibling offset is where the token walk from the end of the node's padded name, one level deep, first closes that level: each BEGIN_NODE opens a level, each END_NODE closes one, NOPs and whole PROP records keep the depth. So it lies just past the END_NODE matching the node's BEGIN_NODE |
| FdtReader.SkipChildrenCloses | ritm_device_tree/src/fdt/mod.rs:479-492 | The child loop returns where the token walk from its start, one level open, closes that level: nested nodes are skipped whole |
| FdtReader.ClosesUnique | ritm_device_tree/src/fdt/mod.rs:458-495 | The walk from an offset at a given depth closes it at one offset only, so the matching END_NODE is determined |
| FdtReader.ChildLoopHangs | ritm_device_tree/src/fdt/mod.rs:479-492 | A PROP or END token where the child loop expects a child never advances (`_ => {}` at line 490), so the loop runs forever |
| FdtReader.ReservationsFrom | ritm_device_tree/src/fdt/mod.rs:317-329 | The iterator yields, in order, the big-endian (address, size) pairs of consecutive 16-byte records from the block start; every record lies in the buffer and none is all zero. It stops exactly where fewer than 16 bytes remain or the next record is all zero |
| FdtReader.Root | ritm_device_tree/src/fdt/mod.rs:348-358 | The root is the node at `off_dt_struct` exactly when a BEGIN_NODE token sits there. Otherwise the error is at `off_dt_struct`: `InvalidLength` when fewer than 4 bytes remain, `BadToken(FDT_BEGIN_NODE)` for another known token, and `BadToken(w)` for an unknown word w |
| FdtProperty.AsU32 | ritm_device_tree/src/fdt/property.rs:56-60 | Succeeds exactly for 4-byte values, giving the word whose encoding is the value; otherwise `InvalidLength` at the value offset |
| FdtProperty.AsU64 | ritm_device_tree/src/fdt/property.rs:79-83 | Succeeds exactly for 8-byte values, giving the word whose encoding is the value; otherwise `InvalidLength` at the value offset |
| FdtProperty.AsStr | ritm_device_tree/src/fdt/property.rs:102-107 | Succeeds exactly when the value is NUL-free UTF-8 plus one final NUL, and gives the string before that NUL; otherwise `InvalidString` |
| FdtProperty.StrList | ritm_device_tree/src/fdt/property.rs:271-282 | Every yielded string is NUL-free valid UTF-8 |
| FdtProperty.StrListOfJoin | ritm_device_tree/src/fdt/property.rs:271-282 | NUL-terminated strings laid end to end read back as exactly those strings |
| FdtProperty.StrListPrefix | ritm_device_tree/src/fdt/property.rs:271-282 | The strings read, with their terminators, are a prefix of the value: malformed trailing data is dropped silently |
| FdtProperty.Classify | ritm_device_tree/src/fdt/property.rs:129-180 | Display shows an empty value bare; word-sized values as cells, one per 4 bytes, cell i being the big-endian word at bytes 4i..4i+4; any other value as raw bytes |
| FdtProperty.ClassifyStrings | ritm_device_tree/src/fdt/property.rs:129-180 | A value is shown as a string list exactly when it looks like strings, and those strings rebuild the value |
| FdtProperty.PrintableStrList | ritm_device_tree/src/fdt/property.rs:129-180 | A printable value ending in NUL reads as a non-empty string list that rebuilds it |
| FdtProperty.ReadProp | ritm_device_tree/src/fdt/property.rs:231-258 | A PROP record read at o is the record whose tag is at o, with its value at o + 12, lies in the blob, and moves the cursor to the padded end of the value. `InvalidLength` exactly when the record header is cut short or its name offset is past the strings block. No result exactly means a readable header and name whose value runs past the buffer, the cursor then being past the buffer too |
| FdtProperty.ReadPropRecord | ritm_device_tree/src/fdt/property.rs:231-258 | A property read from a PROP tag in a valid blob is a well-formed property record of that blob: header, name and value all lie where the record says |
| FdtProperty.PropTryNext | ritm_device_tree/src/fdt/property.rs:223-264 | Never hangs; panics only past the buffer. The yielded property is the record at the first word after the cursor that is not a NOP, so only NOPs lie before it; the cursor moves to its padded end. None means that first non-NOP word stops properties or starts a record reaching past the buffer |
| FdtProperty.PropNext | ritm_device_tree/src/fdt/property.rs:193-219 | An errored cursor yields nothing; an error moves the cursor to the error state; each yielded property moves it strictly forward |
| FdtProperty.ErrorPoisons | ritm_device_tree/src/fdt/property.rs:193-219 | After the cursor yields an error, its next call yields nothing |
| FdtProperty.CollectProps | ritm_device_tree/src/fdt/node.rs:86-91 | Collecting a node's properties never loops forever. The properties collected from a node are the PROP records after its padded name, in blob order, each reached over NOPs only from the end of the one before, up to a token that stops properties or a record whose value runs past the buffer |
| FdtProperty.PropChainUnique | ritm_device_tree/src/fdt/property.rs:223-264 | The chain of property records from an offset is determined: two chains from the same offset are the same list |
| FdtProperty.FindProp | ritm_device_tree/src/fdt/node.rs:62-70 | A property found has the requested name |
| FdtProperty.FindPropFirst | ritm_device_tree/src/fdt/node.rs:62-70 | Lookup returns the first property of that name among those the cursor yields in order. These are the collected list when it reads in full, else those before the cursor's first error. With no match, lookup gives None when the list read in full, else that first error |
| FdtProperty.FindPropYields | ritm_device_tree/src/fdt/node.rs:62-70 | Over properties the cursor yields one by one, lookup returns the first with that name; with none so named it carries on from where they end |
| FdtProperty.CollectPropsSplit | ritm_device_tree/src/fdt/node.rs:86-91 | A finished collection is properties the cursor yields one by one and then one more call, which yields nothing when collecting succeeded and the returned error when it failed |
| FdtProperty.CollectPropsFails | ritm_device_tree/src/fdt/node.rs:86-91 | Partner of `CollectPropsSplit`: properties yielded and then an error make collecting return that error |
| FdtProperty.CollectPropsEnds | ritm_device_tree/src/fdt/node.rs:86-91 | Partner of `CollectPropsSplit`: properties yielded and then nothing make collecting return exactly those properties |
| FdtNodes.Name | ritm_device_tree/src/fdt/node.rs:36-39 | The name is the NUL-free UTF-8 string stored right after BEGIN_NODE; `InvalidOffset` exactly when that position is past the buffer |
| FdtNodes.PropertyNamed | ritm_device_tree/src/fdt/node.rs:62-70 | A property found on the node has the requested name |
| FdtNodes.PropertyFirst | ritm_device_tree/src/fdt/node.rs:62-70 | `FdtNode::property` is the first property of that name among those the node's cursor yields; with no match, None when the properties read in full, else the cursor's first error |
| FdtNodes.ChildTryNext | ritm_device_tree/src/fdt/node.rs:216-245 | A yielded child begins a node (BEGIN_NODE, readable name) at or after the cursor, and the cursor moves to its sibling offset, past the child and within the blob. The run ends without a child only on an END_NODE or END token at or after the cursor |
| FdtNodes.ChildTryNextSkips | ritm_device_tree/src/fdt/node.rs:216-245 | The yielded child, or the END_NODE/END token that ends the run, is exactly where the property-skipping loop from the same cursor stops, so only NOPs and whole PROP records lie before it |
| FdtNodes.ChildNext | ritm_device_tree/src/fdt/node.rs:186-212 | An errored cursor yields nothing; an error moves the cursor to the error state; each child yielded lies ahead of the cursor and the cursor's measure shrinks |
| FdtNodes.CollectChildren | ritm_device_tree/src/fdt/node.rs:138-143 | Every collected child sits on a BEGIN_NODE token. The children collected from a node are its direct children in blob order: the first at the token where the property loop after its name stops, each next one where the property loop stops after the previous one's sibling offset, up to a token that is not BEGIN_NODE |
| FdtNodes.ChildChainUnique | ritm_device_tree/src/fdt/node.rs:216-245 | The chain of child records from an offset is determined: two chains from the same offset are the same list |
| FdtNodes.CollectedInOrder | ritm_device_tree/src/fdt/node.rs:186-245 | Children come out in strictly increasing blob order, none before the cursor |
| FdtNodes.FindChild | ritm_device_tree/src/fdt/node.rs:114-122 | A child found has the requested name |
| FdtNodes.FindChildFirst | ritm_device_tree/src/fdt/node.rs:114-122 | Lookup reads the names of the children the cursor yields in order and returns the first child of that name, or the first name error. These children are the collected list when it reads in full, else those before the cursor's first error. With no match, lookup gives None when the list read in full, else that first error |
| FdtNodes.ChildFirst | ritm_device_tree/src/fdt/node.rs:114-122 | `FdtNode::child` is that first match among the children the node's cursor yields, a name error, or, with no match, None or the cursor's first error |
| FdtNodes.FindChildYields | ritm_device_tree/src/fdt/node.rs:114-122 | Over children the cursor yields one by one, lookup returns the first with that name or the first name error; with neither it carries on from where they end |
| FdtNodes.CollectChildrenSplit | ritm_device_tree/src/fdt/node.rs:138-143 | A finished collection is children the cursor yields one by one and then one more call, which yields nothing when collecting succeeded and the returned error when it failed |
| FdtFind.FindMatching | ritm_device_tree/src/fdt/mod.rs:393-397 | The `find` with an `is_ok_and` predicate returns only a child with the requested name, and never an error |
| FdtFind.FindNodeAsWritten | ritm_device_tree/src/fdt/mod.rs:381-404 | A relative path gives None, and "/" gives the root. An error comes back only when the root cannot be read |
| FdtFind.FindNodeSwallowsError | ritm_device_tree/src/fdt/mod.rs:392-401 | On a valid blob whose root's child cursor fails with `BadToken(7)`, "/a" gives None as written, but the error with the intended search |
| FdtFind.FindMatchingOrError | ritm_device_tree/src/fdt/mod.rs:393-401 | The intended search returns a child with the requested name, or the cursor's error |
| FdtFind.NotFoundMeansAbsent | ritm_device_tree/src/fdt/mod.rs:393-401 | With the intended search, "not found" means every child was read and none has that name |
| FdtFind.FindNode | ritm_device_tree/src/fdt/mod.rs:381-404 | As `find_node`, but with child-cursor errors reported: a relative path gives None, "/" gives the root, and a root error is returned |
| FdtFind.FirstNamedNode | ritm_device_tree/src/fdt/mod.rs:393-397 | The first node of a list whose name reads as the requested one; None exactly when no node bears it |
| FdtFind.SearchFindsFirst | ritm_device_tree/src/fdt/mod.rs:393-397 | When the whole child list reads without error, both searches give its first child of that name, or None when there is none |
| FdtFind.Follow | ritm_device_tree/src/fdt/mod.rs:392-401 | The reference descent over child lists: an empty path stays put, and a node reached bears the last segment's name |
| FdtFind.DescendFollows | ritm_device_tree/src/fdt/mod.rs:392-401 | Where every child list on the way reads without error, both descent loops reach exactly the node found by taking, segment by segment, the first child of that name, and give None at the first segment that names no child |
| FdtFind.FindNodeFollows | ritm_device_tree/src/fdt/mod.rs:381-404 | For an absolute path other than "/", with a readable root and readable child lists on the way, both versions of `find_node` return that node or None |
| FdtFind.FindNodeBySegments | ritm_device_tree/src/fdt/mod.rs:392 | Both lookups depend only on the non-empty segments of an absolute path |
| IndexMaps.Get | ritm_device_tree/src/model/node.rs:104-106 | A key is found exactly when some entry has it, and the value returned is stored under it |
| IndexMaps.Insert | ritm_device_tree/src/model/node.rs:143-145 | A present key keeps its position and takes the new value; a new key is appended; other entries stay |
| IndexMaps.InsertUnique | ritm_device_tree/src/model/node.rs:143-145 | With distinct keys, insert rewrites the one entry of its key in place, and the keys stay distinct |
| IndexMaps.GetInsert | ritm_device_tree/src/model/node.rs:143-145 | After insert(k, v), get(k) = v and every other key reads as before, whether or not the keys are distinct |
| IndexMaps.ShiftRemove | ritm_device_tree/src/model/node.rs:164-166 | Returns get(k). An absent key changes nothing. Otherwise exactly that entry is cut out and the rest keep their order |
| IndexMaps.GetShiftRemove | ritm_device_tree/src/model/node.rs:164-166 | After removal the key is gone and every other key reads as before |
| IndexMaps.GetInsertAll | ritm_device_tree/src/model/node.rs:272-274 | After a loop of inserts, each key holds the last value given for it, or its old value |
| IndexMaps.InsertAllFresh | ritm_device_tree/src/model/node.rs:272-274 | Inserting new, distinct keys appends them in order |
| ModelProperty.SetValue | ritm_device_tree/src/model/property.rs:63-65 | The value is replaced and the name kept |
| ModelProperty.AsU32 | ritm_device_tree/src/model/property.rs:76-82 | Succeeds exactly for 4-byte values, giving the word they encode |
| ModelProperty.AsU32OfWord | ritm_device_tree/src/model/property.rs:76-82 | A value written as a big-endian word reads back as that word |
| ModelProperty.TrimNul | ritm_device_tree/src/model/property.rs:93-97 | `trim_end_matches('\0')` leaves a prefix not ending in NUL, with only NULs cut off |
| ModelProperty.AsStr | ritm_device_tree/src/model/property.rs:93-97 | Succeeds exactly when the whole value is UTF-8, giving valid UTF-8 that is the value minus its trailing NULs |
| ModelProperty.AsStrOfPadded | ritm_device_tree/src/model/property.rs:93-97 | A valid string followed by any number of NULs reads back as that string |
| ModelNode.New | ritm_device_tree/src/model/node.rs:51-56 | A new node has the name, no properties and no children, and is well-formed |
| ModelNode.Property | ritm_device_tree/src/model/node.rs:104-106 | A property found is stored under that name |
| ModelNode.PropertyIff | ritm_device_tree/src/model/node.rs:104-106 | In a well-formed node, lookup succeeds exactly when some property has that name, and returns that property |
| ModelNode.AddProperty | ritm_device_tree/src/model/node.rs:143-145 | Name and children are untouched, and well-formedness is kept |
| ModelNode.AddPropertyLookup | ritm_device_tree/src/model/node.rs:143-145 | After `add_property(p)`, lookup of p's name gives p; other names and other positions are unchanged |
| ModelNode.AddPropertyPosition | ritm_device_tree/src/model/node.rs:143-145 | A re-added name is replaced where it stood; a new name goes last |
| ModelNode.RemoveProperty | ritm_device_tree/src/model/node.rs:164-166 | Returns what lookup gave; an absent name changes nothing; name, children and well-formedness are kept |
| ModelNode.RemovePropertyLookup | ritm_device_tree/src/model/node.rs:164-166 | After removal the name is gone and every other name reads as before |
| ModelNode.RemovePropertyOrder | ritm_device_tree/src/model/node.rs:164-166 | The rest keep their relative order: the removed one is cut out at its position |
| ModelNode.Child | ritm_device_tree/src/model/node.rs:194-196 | A child found is stored under that name |
| ModelNode.ChildIff | ritm_device_tree/src/model/node.rs:194-196 | In a well-formed node, lookup succeeds exactly when some child has that name, and returns that well-formed child |
| ModelNode.AddChild | ritm_device_tree/src/model/node.rs:233-235 | Name and properties are untouched, and well-formedness is kept |
| ModelNode.AddChildLookup | ritm_device_tree/src/model/node.rs:233-235 | After `add_child(c)`, lookup of c's name gives c itself, replacing any earlier subtree; other names are unchanged |
| ModelNode.AddChildPosition | ritm_device_tree/src/model/node.rs:233-235 | A re-added name is replaced where it stood; a new name goes last |
| ModelNode.RemoveChild | ritm_device_tree/src/model/node.rs:254-256 | Returns what lookup gave; an absent name changes nothing; name, properties and well-formedness are kept |
| ModelNode.RemoveChildLookup | ritm_device_tree/src/model/node.rs:254-256 | After removal the name is gone and every other name reads as before |
| ModelNode.RemoveChildOrder | ritm_device_tree/src/model/node.rs:254-256 | The remaining children keep their relative order |
| ModelNode.Builder | ritm_device_tree/src/model/node.rs:60-62 | A builder starts from `DeviceTreeNode::new(name)` |
| ModelNode.WithProperty | ritm_device_tree/src/model/node.rs:311-314 | The builder's `property` is `add_property` |
| ModelNode.WithChild | ritm_device_tree/src/model/node.rs:318-321 | The builder's `child` is `add_child` |
| ModelNode.BuildOrder | ritm_device_tree/tests/model.rs:14-42 | A node built with two differently named properties and a child holds them in call order, and is well-formed |
| FromFdt.NodeFromFdt | ritm_device_tree/src/model/node.rs:262-293 | A converted node has the blob node's name; a name that cannot be read is returned as the error |
| FromFdt.ChildrenFrom | ritm_device_tree/src/model/node.rs:276-279 | A successful run is empty exactly when the child cursor ends at once, and met no cursor error |
| FromFdt.NodeFromFdtWellFormed | ritm_device_tree/src/model/node.rs:262-293 | Every converted node is well-formed: each key is its entry's own name, all the way down |
| FromFdt.ChildrenFromReader | ritm_device_tree/src/model/node.rs:276-279 | A successful conversion walks exactly the children the reader's cursor collects, converting each in order |
| FromFdt.NodeFromFdtLookup | ritm_device_tree/src/model/node.rs:262-293 | A converted node's lookup gives the last blob property, or the last converted child, of that name: later duplicates win |
| FromFdt.NodeFromFdtErrors | ritm_device_tree/src/model/node.rs:264-279 | With a readable name, conversion returns the property cursor's first error. With the properties read in full, it returns the first error met converting the yielded children in order, or the child cursor's error when every child before it converted |
| FromFdt.ChildrenFromChildError | ritm_device_tree/src/model/node.rs:276-279 | When the yielded children, converted in order, stop at a failure, the run returns that error |
| FromFdt.ChildrenFromCursorError | ritm_device_tree/src/model/node.rs:276-279 | When every yielded child converts and the cursor then fails, the run returns the cursor's error |
| FromFdt.NodeFromFdtDistinct | ritm_device_tree/src/model/node.rs:264-274 | When the blob names every property differently, the converted properties are the blob's, in blob order |
| ModelTree.New | ritm_device_tree/src/model/mod.rs:60-65 | A new tree has the root and no reservations |
| ModelTree.TreeFromFdt | ritm_device_tree/src/model/mod.rs:81-87 | A root error is returned. Otherwise the outcome is the root's conversion, with the blob's reservations. A converted tree is well-formed |
| ModelTree.FindNode | ritm_device_tree/src/model/mod.rs:128-143 | A relative path gives None; "/" gives the root |
| ModelTree.FindNodeIsDescend | ritm_device_tree/src/model/mod.rs:128-143 | An absolute path finds exactly the node reached by following its non-empty segments |
| ModelTree.FindNodeJoin | ritm_device_tree/src/model/mod.rs:128-143 | The canonical path of a list of segments follows exactly those segments |
| ModelTree.DescendWellFormed | ritm_device_tree/src/model/mod.rs:136-141 | Every node a lookup reaches in a well-formed tree is well-formed |
| ModelTree.ReplaceAt | ritm_device_tree/src/model/overlay/mod.rs:44-63 | Writing through the found reference keeps the root's name and properties when the path is non-empty, and changes nothing when the path is missing |
| ModelTree.DescendReplaceAt | ritm_device_tree/src/model/overlay/mod.rs:44-63 | After the write, the same path finds the written node |
| ModelTree.DescendReplaceAtOther | ritm_device_tree/src/model/overlay/mod.rs:44-63 | A lookup that leaves the written path at some step reads the same node as before: only the target path is mutated |
| ModelTree.ReplaceAtFrame | ritm_device_tree/src/model/overlay/mod.rs:44-63 | A write leaves every lookup along a diverging path as it was |
| ModelTree.ReplaceAtWellFormed | ritm_device_tree/src/model/overlay/mod.rs:44-63 | Writing a well-formed node with the same name keeps the tree well-formed |
| ModelTree.ReplaceAtSame | ritm_device_tree/src/model/overlay/mod.rs:44-63 | Writing back the node already there changes nothing |
| TreeWalk.PreOrder | ritm_device_tree/src/model/overlay/mod.rs:179-187 | The walk starts at the node itself |
| TreeWalk.DescendVisited | ritm_device_tree/src/model/overlay/mod.rs:179-187 | Every node a path lookup can reach is visited by the walk |
| TreeWalk.ChildWalkInside | ritm_device_tree/src/model/overlay/mod.rs:183-185 | A child's walk lies inside the walk of the children from any earlier position |
| Overlay.Walk | ritm_device_tree/src/model/overlay/mod.rs:106-118 | The callback sees each node of the pre-order walk, with its name and what its "phandle" holds |
| Overlay.ScanError | ritm_device_tree/src/model/overlay/mod.rs:106-119 | The scan records an error exactly when some phandle is not 4 bytes, naming the last such node |
| Overlay.ScanMax | ritm_device_tree/src/model/overlay/mod.rs:106-118 | The scanned maximum bounds every phandle and is one of them, or 0 when there is none |
| Overlay.NewMap | ritm_device_tree/src/model/overlay/mod.rs:103-126 | `CorruptedPhandle` exactly when a phandle is corrupted. A new map has no pairs. Its counter is one above the largest base phandle, or 1 when there is none. Panics exactly when u32::MAX is a base phandle and none is corrupted |
| Overlay.Renumber | ritm_device_tree/src/model/overlay/mod.rs:128-140 | A node without "phandle" is untouched. A corrupted one is `CorruptedPhandle`. Otherwise the pair (old, next) is pushed, "phandle" becomes next, and the counter moves on. Panics exactly at u32::MAX |
| Overlay.FixupAll | ritm_device_tree/src/model/overlay/mod.rs:142-145 | Every property is passed through `fixup_property`, keys and order kept |
| Overlay.FixupNode | ritm_device_tree/src/model/overlay/mod.rs:128-151 | Only `CorruptedPhandle` can fail it. The map only grows. Name, subtree size and well-formedness are kept |
| Overlay.FixupChildren | ritm_device_tree/src/model/overlay/mod.rs:147-149 | The children are fixed up in order; each keeps its key, name and subtree size |
| Overlay.FixupNodeParts | ritm_device_tree/src/model/overlay/mod.rs:128-151 | What `fixup_node` made of a node: it was renumbered first; its properties are that node's properties rewritten with the pairs recorded so far, its own included; its children are chained fix-ups |
| Overlay.FixupChildrenChain | ritm_device_tree/src/model/overlay/mod.rs:147-149 | Each child is fixed up with the map the child before it left behind, the first with the map after renumbering, and the loop ends with the last child's map |
| Overlay.MergeProps | ritm_device_tree/src/model/overlay/mod.rs:75-83 | The property loop keeps the node's name, children and well-formedness |
| Overlay.MergePropsSet | ritm_device_tree/src/model/overlay/mod.rs:75-83 | After the loop, an overlay property's name holds its last fixed-up overlay value |
| Overlay.MergePropsUntouched | ritm_device_tree/src/model/overlay/mod.rs:75-83 | A name no overlay property has reads as before |
| Overlay.MergeNodes | ritm_device_tree/src/model/overlay/mod.rs:70-95 | The merged node keeps the existing name. On success the map only grows. Only `CorruptedPhandle` can fail it |
| Overlay.MergeChildren | ritm_device_tree/src/model/overlay/mod.rs:85-93 | The child loop keeps the node's name and properties; the map only grows |
| Overlay.MergeChild | ritm_device_tree/src/model/overlay/mod.rs:85-93 | One turn of the child loop keeps the node's name and properties; on success the map only grows; only `CorruptedPhandle` can fail it |
| Overlay.MergeChildPlaces | ritm_device_tree/src/model/overlay/mod.rs:85-93 | After a successful turn, the child's name holds the fixed-up overlay child when it was new, or the existing child merged with it, using the map the fix-up left |
| Overlay.MergeChildOthers | ritm_device_tree/src/model/overlay/mod.rs:85-93 | A turn leaves every other child name as it was |
| Overlay.MergeChildKeys | ritm_device_tree/src/model/overlay/mod.rs:85-93 | A turn keeps the child names distinct |
| Overlay.MergeChildrenReach | ritm_device_tree/src/model/overlay/mod.rs:85-93 | The loop reaches any later position with a grown map, a name no turn in between uses still reading as before, and the remaining turns succeed and leave under that name what the whole loop does |
| Overlay.MergeChildrenHere | ritm_device_tree/src/model/overlay/mod.rs:85-93 | When the overlay children's names differ, the turn for child i places it, and no later turn changes that |
| Overlay.MergeNodesChild | ritm_device_tree/src/model/overlay/mod.rs:70-95 | After a successful merge of well-formed nodes, each overlay child sits under its name as placed by its turn, with a map grown from the starting one |
| Overlay.MergeChildrenUntouched | ritm_device_tree/src/model/overlay/mod.rs:85-93 | A child name the overlay lacks reads as before |
| Overlay.MergeNodesUntouched | ritm_device_tree/src/model/overlay/mod.rs:70-95 | Existing properties and children the overlay node does not name are untouched |
| Overlay.MergeNodesProperty | ritm_device_tree/src/model/overlay/mod.rs:75-83 | Every overlay property ends up in the merged node, rewritten by the map as it stood at the start |
| Overlay.MergeNodesWellFormed | ritm_device_tree/src/model/overlay/mod.rs:70-95 | Merging well-formed nodes gives a well-formed node |
| Overlay.FirstNamed | ritm_device_tree/src/model/overlay/mod.rs:51-55 | The `find` for `__overlay__` gives the first child of that name, or None exactly when there is none |
| Overlay.FragmentParts | ritm_device_tree/src/model/overlay/mod.rs:29-61 | Each error names the fragment, and each kind holds exactly when its check is the first to fail: no target-path, a target-path that is not UTF-8, an unresolved path, no `__overlay__`. On success it gives the path, the node found there and the overlay child |
| Overlay.ApplyFragments | ritm_device_tree/src/model/overlay/mod.rs:28-64 | Reservations are untouched and the shared map only grows. A fragment that fails its checks stops the loop with the tree as it was. A merge that fails leaves its partial merge written back: earlier fragments are not undone |
| Overlay.ApplyFragmentsWrites | ritm_device_tree/src/model/overlay/mod.rs:44-64 | After a successful merge, the loop goes on, with the grown map, on exactly the tree in which the merged node is written at the target path: that path finds the merged node, and every lookup that leaves the target path reads as before |
| Overlay.ApplyFragmentsFrame | ritm_device_tree/src/model/overlay/mod.rs:28-64 | A lookup that leaves the target path of every remaining well-formed fragment reads the same node after the loop, whether it finishes or stops at an error |
| Overlay.ApplyOverlay | ritm_device_tree/src/model/overlay/mod.rs:24-67 | A phandle-scan error leaves the tree untouched and is returned; an overlay without fragments changes nothing; reservations are kept |
| Overlay.ApplyOverlayWellFormed | ritm_device_tree/src/model/overlay/mod.rs:24-67 | Applying a well-formed overlay keeps a well-formed tree well-formed |
| Overlay.ApplyOverlayFrame | ritm_device_tree/src/model/overlay/mod.rs:24-67 | Only nodes on the fragments' target paths change: a path whose segments leave every fragment's target path finds the same node afterwards |
| Overlay.FreshPhandles | ritm_device_tree/src/model/overlay/mod.rs:121-134 | Every phandle handed out while the whole overlay is applied is above every base phandle, and they strictly increase |
| PhandleCells.CellsOfWords | ritm_device_tree/src/model/overlay/mod.rs:163-171 | Cells written big-endian and read back are the same cells |
| PhandleCells.WordsOfCells | ritm_device_tree/src/model/overlay/mod.rs:163-171 | A value of whole cells is exactly the bytes of its cells |
| PhandleCells.FixupProperty | ritm_device_tree/src/model/overlay/mod.rs:153-175 | Name and length are kept; a value whose length is not a multiple of 4 is untouched; otherwise each pair, in recording order, rewrites every cell equal to its old phandle |
| PhandleCells.ApplyMapIsChase | ritm_device_tree/src/model/overlay/mod.rs:162-172 | Applying the pairs to all cells is following each cell through the pairs on its own |
| PhandleCells.FixupPropertyCells | ritm_device_tree/src/model/overlay/mod.rs:153-175 | Cell by cell, the fixed value holds the followed cell; with no pairs the property is unchanged |
| PhandleCells.ChaseUntouched | ritm_device_tree/src/model/overlay/mod.rs:162-172 | A cell that is no pair's old phandle is left alone |
| PhandleCells.FixupWord | ritm_device_tree/src/model/overlay/mod.rs:153-175 | A one-cell reference becomes the cell its old value leads to |
| PhandleCells.SequentialPairs | ritm_device_tree/src/model/overlay/mod.rs:162-172 | With (1, 2) recorded before (2, 3), a reference to 1 becomes 3: the pairs act in sequence, not as one lookup |
| DoubleFixup.MergedChildRenumberedTwice | ritm_device_tree/src/model/overlay/mod.rs:85-91 | A matched child's own child is renumbered by `fixup_node` and again inside the recursive merge: phandle 1 goes to 1 then 2, and two pairs record old phandle 1 |
| Writer.WriteReservations | ritm_device_tree/src/writer.rs:81-90 | 16 bytes per reservation plus 16 zero bytes at the end |
| Writer.ReservationsRoundTrip | ritm_device_tree/src/writer.rs:81-90 | The reader's reservation iterator, started at the block, yields exactly the written reservations when none is all zero |
| Writer.FirstUses | ritm_device_tree/src/writer.rs:136-144 | The strings table holds every property name written and no name twice |
| Writer.TableGrows | ritm_device_tree/src/writer.rs:136-144 | Writing further names only extends the strings block |
| Writer.WriteProp | ritm_device_tree/src/writer.rs:130-155 | Panics exactly when a new name would sit past u32::MAX in the strings block or the value is longer than u32::MAX. Otherwise both blocks only grow, the record takes align(12 + value) bytes, and old name offsets are kept |
| Writer.WritePropRecord | ritm_device_tree/src/writer.rs:146-154 | The record is PROP, the value length, the name's offset, the value, then zeros |
| Writer.WritePropInterned | ritm_device_tree/src/writer.rs:136-144 | After a property is written, the strings block is still the table of names in first-use order, and every name written so far maps to the offset where it and its NUL lie |
| Writer.WriteNodeInterned | ritm_device_tree/src/writer.rs:108-128 | Writing a subtree interns its property names in the order `write_node` meets them |
| Writer.Padded | ritm_device_tree/src/writer.rs:157-161 | `align` appends zeros up to the next multiple of 4 and keeps what was there |
| Writer.WriteNode | ritm_device_tree/src/writer.rs:108-128 | Both blocks only grow; the structure block stays a multiple of 4; an aligned start grows by exactly the subtree's record size |
| Writer.WriteNodeRecord | ritm_device_tree/src/writer.rs:108-128 | From an aligned start, `write_node` appends exactly the subtree's record: BEGIN_NODE and the padded name, the property records in order, the children's records in order, END_NODE, with each name offset the one the final map holds |
| Writer.WriteNodeFrame | ritm_device_tree/src/writer.rs:114-127 | A node record opens with BEGIN_NODE, the name, a NUL and padding, and closes with END_NODE |
| Writer.NodeAligned | ritm_device_tree/src/writer.rs:114-127 | Every node record's size is a multiple of 4 |
| Writer.WriteNodePanics | ritm_device_tree/src/writer.rs:139-149 | Writing a subtree panics only when one of its values, or the strings table, is longer than u32::MAX |
| Writer.WriteRoot | ritm_device_tree/src/writer.rs:92-106 | The structure block has the root's record size plus one END token, starts with the root's BEGIN_NODE and name, and ends with END. The strings block is the name table of all property names. It panics only when the root's record or the name table is longer than u32::MAX bytes |
| Writer.WriteRootRecord | ritm_device_tree/src/writer.rs:92-106 | The structure block is exactly the root's record followed by END, under offsets that cover the property names and at each of which the strings block holds its name |
| Writer.ToBytes | ritm_device_tree/src/writer.rs:26-79 | Panics exactly when the blob would be longer than u32::MAX bytes; otherwise the length is header + reservations + structure + strings |
| Writer.ToBytesAccepted | ritm_device_tree/src/model/mod.rs:96-98 | A blob `to_dtb` returns is accepted by `Fdt::new`. Its header locates the strings block, which holds the name table. The reservation iterator yields the tree's reservations when none is all zero |
| SimpleMaps.New | src/simple_map.rs:9-13 | Every slot of a new map is empty |
| SimpleMaps.NewEmpty | src/simple_map.rs:9-13 | A new map holds no key and has at most one slot per key |
| SimpleMaps.FindKey | src/simple_map.rs:15-24 | The slot found is the first one holding the key; None exactly when no slot does |
| SimpleMaps.Get | src/simple_map.rs:15-24 | None exactly when no slot holds the key; otherwise the value in the first slot holding it |
| SimpleMaps.Remove | src/simple_map.rs:37-46 | Returns `get(k)`. An absent key changes nothing. Otherwise the first slot holding the key is emptied and every other slot is kept |
| SimpleMaps.RemoveLookup | src/simple_map.rs:37-46 | Other keys read as before; with one slot per key, the invariant is kept and the key is gone |
| SimpleMaps.Insert | src/simple_map.rs:26-35 | Panics exactly when the key is absent and every slot is full. Otherwise, after the key is removed, (k, v) goes into the lowest empty slot and every other slot is kept; the capacity never changes |
| SimpleMaps.InsertLookup | src/simple_map.rs:26-46 | After `insert(k, v)`, `get(k)` = v and other keys read as before; one slot per key is kept |
| SimpleMaps.InsertThenRemove | src/simple_map.rs:26-46 | `remove` right after `insert` gives back the inserted value |
| Psci.FunctionFrom | src/exceptions/psci.rs:60-89 | Named exactly for the 14 FN_BASE and 7 FN64_BASE numbers; any other code is `Unknown(code)`; the function's number is always the code |
| Psci.FunctionFromId | src/exceptions/psci.rs:2-29 | Every named function decodes from its own call number |
| Psci.SixtyFourBitFlag | src/exceptions/psci.rs:2-29 | Among the named numbers, the 64-bit calls are exactly those from FN64_BASE = 0xC400_0000 up |
| Psci.ReturnFrom | src/exceptions/psci.rs:106-122 | 0 to -9 are named and every other value is `Unknown(c)`; converting back to i32 gives c for every c |
| Psci.ReturnCode | src/exceptions/psci.rs:124-140 | A named return code is between -9 and 0 |
| Psci.ReturnFromCode | src/exceptions/psci.rs:106-140 | A return value converted to i32 and back is itself, unless it is an `Unknown` holding a named code |

## Left out

- Display and `fmt` text rendering of blobs, nodes and properties. Only the value classification that property display makes is modelled (`FdtProperty.Classify`); the text itself is formatting.
- `Fdt::from_raw`: it reads a header through a raw pointer, which has no counterpart in a model of byte sequences.
- Hashing and performance of the `IndexMap` (xxhash seed, capacity hints). Only its observable order and lookup behaviour is modelled.
- `PhandleNotFound` (ritm_device_tree/src/model/overlay/mod.rs:138) is never produced: the "phandle" property was found just above. The chunk `try_into` error in `fixup_property` (ritm_device_tree/src/model/overlay/mod.rs:165) is unreachable too, because the value length is a multiple of 4.
- The `assert_eq!` on the header size (ritm_device_tree/src/writer.rs:63-67) always holds, since `FdtHeader.HeaderBytes` is 40 bytes, so it is not modelled as a panic.
- References: `get_mut`, the reference `insert` returns, `property_mut`, `child_mut` and `find_node_mut` hand out `&mut` references. They are modelled as returned values, and a write through one is modelled as a new value (`ModelTree.ReplaceAt`, `Overlay.WithPhandle`).
- Overflow: the `+ 1` of the phandle counter (ritm_device_tree/src/model/overlay/mod.rs:123, 134) is modelled as a panic, the behaviour of an overflow-checked build. A release build would wrap to 0.
- Writer.ToBytesAccepted: the byte-for-byte round trip `to_dtb(from_fdt(b)) == b` of the test blobs (ritm_device_tree/tests/fdt.rs:153-172) is not proved. The model proves less: the output is accepted, the header fields follow the layout, the strings block is the first-use name table, and the reservations read back. The round trip does not hold for every blob, since NOP tokens, duplicate names and a differently ordered strings block are not reproduced. At most it can hold for blobs the writer itself could have produced.
- Writer.ToBytesAccepted: reading the written structure block back is not proved. For a tree whose siblings have distinct names, `FromFdt.NodeFromFdt` on the root of the written blob should give back the tree's root. The model states only what the header, the strings block and the reservation block of the output read back as.
- Writer.WriteRoot: panicking is proved only in one direction (a panic implies an over-long record or strings table); `Writer.ToBytes` states the exact condition on the total size.
- Writer.WriteNodePanics: only one direction, a panic implies an over-long value or strings table, for the same reason.
- FdtFind.FindNode: this corrected lookup is the corrected half of the Findings row. Nothing else in the model depends on it; `FindNodeAsWritten` is kept alongside it to show the discrepancy.
- `FdtNode` iteration is modelled as the collected sequence plus the cursor step. The lazy `Iterator` adaptors (`map`, `filter`, `collect`) are not modelled as separate operations.
- SimpleMaps.Insert: the returned `&mut V` is not modelled; `SimpleMaps.InsertLookup` states that the inserted value is what `get_mut` then finds.
- The rest of the hypervisor (exception vectors, the console, platform setup), together with the older `ir.rs`, `overlay.rs`, `node.rs`, `property.rs` and `lib.rs` sources, is not part of this model. Neither is error.rs, an older copy whose error kinds lack `InvalidHeader` and `InvalidOffset`; the error kinds here are the ones the fdt/mod.rs code constructs.
- The code is modelled as written where its behaviour looks unintended:
  - `find_node` returns `Option<Result<..>>` and has a `Some(Err(e))` arm (ritm_device_tree/src/fdt/mod.rs:399), so child-cursor errors were evidently meant to be reported. As written they become "not found" (see Findings).
  - The subtree of a matched child is renumbered twice, once before the recursive merge and once inside it (ritm_device_tree/src/model/overlay/mod.rs:85-91). `DoubleFixup` works one case out.

## Findings

| source | as written | input that shows it | evidently intended | confidence | as-written member | corrected member |
|---|---|---|---|---|---|---|
| ritm_device_tree/src/fdt/mod.rs:392-401 | The predicate in `children().find(..)` is false for an `Err` item, so the search skips it. The cursor then stops, and `find` returns None. The `Some(Err(e))` arm is unreachable, and a child-cursor error is reported as "not found" | `BAD_CHILD_BLOB`: a valid 68-byte blob whose unnamed root is followed by the word 7 where a token belongs; path "/a" | `Some(Err(BadToken(7)))` at offset 64 | not executed | FdtFind.FindNodeAsWritten, FdtFind.FindNodeSwallowsError | FdtFind.FindNode, FdtFind.NotFoundMeansAbsent |
