# sac-json node-function generator, modelled in Dafny

`yajl-validate/gen.c` reads a schema of AST node types. Each node type has ordered
attributes (each with a type name), sons and flags, and there is a registry of
attribute types (copy kind, persist flag, initialiser). From this schema, gen.c prints
the C sources of the compiler's per-node functions:

- FREE`<node>`, which frees a node;
- CHKRST`<node>` and CHKM`<node>`, which reset and check the tree;
- SET`<node>`, SEL`<node>` and SBT`<node>`, which serialise nodes, links and the
  serialisation stack;
- the two cases of the de-serialisation helpers SHLPmakeNodeVa and SHLPfixLink for
  each node type;
- the node allocation structures;
- the enums and prototype headers.

`yajl-validate/validator.h` supplies the registry records and the traversal-node-type
names.

The model keeps the derivation rules and drops the C text. Each generator is a
method. It loops over the node entries, and inside over attributes, sons and flags,
exactly as gen.c does. It appends abstract instructions (`Schema.Op`) to the body of
one function per node (`Schema.Fn`). The method's postcondition ties its output to a
specification function: `FreeBody`, `ResetBody`, `CheckBody`, `SetBody`, `SelBody`,
`SbtBody`, `MakeBody`, `FixCaseBody` or `AllocBody`. Lemmas then prove the following:

- each derived body's order, its exceptions for particular node types, and what it
  returns;
- that the generator pairs agree:
  - SET writes exactly the argument slots SHLPmakeNodeVa consumes;
  - SEL and SBT visit the same children;
  - SEL's link numbers are SHLPfixLink's slot numbers;
  - NODE_ALLOC and the constructor agree on the sub-structures;
- how the derived code behaves when run:
  - SHLPmakeNodeVa applied to what SET writes rebuilds the node;
  - SHLPfixLink applied to what SEL writes restores the link;
  - the reset entry point keeps a Fundef's `Next` chain.

Modules, one per file:

- `Schema`: the schema, the registry lookup, the instructions, and the son traversal
  shared by several generators.
- `Text`: the ASCII case maps used for C identifiers.
- `Validator`: the enums of validator.h and `trav_node_type_name`.
- `Headers`: the enum, allocation and prototype header generators.
- `Lifecycle`: gen_free_node_c.
- `Validation`: gen_check_reset_c and gen_check_node_c.
- `Serialization`: gen_serialize_node_c, gen_serialize_link_c and
  gen_serialize_buildstack_c.
- `Deserialization`: gen_serialize_helper_c.
- `Agreement`: the lemmas that relate two generators.
- `Runtime`: interpreters for the derived SHLPfixLink, SHLPmakeNodeVa and
  CHKRSTdoTreeCheckReset code.

## Model

| member | source | states |
|---|---|---|
| Schema.Find | yajl-validate/gen.c:1311-1312 | a registry lookup finds an entry with the requested name, and finds none exactly when no entry has that name |
| Schema.TravSons | yajl-validate/gen.c:716-728 | one traversal per son, in declaration order |
| Schema.TravSonsExceptNextMember | yajl-validate/gen.c:608-621 | the son loop of FREE and CHKM traverses exactly the sons other than `Next` |
| Schema.GenTravSonsExceptNext | yajl-validate/gen.c:608-621 | the son loop builds the traversals of every son except `Next`, in order |
| Text.ToLower | yajl-validate/gen.c:1125 | node names are lower-cased character by character, keeping the length |
| Text.ToUpper | yajl-validate/gen.c:1126 | node names are upper-cased character by character, keeping the length |
| Validator.TravNodeTypeName | yajl-validate/validator.h:49-65 | each handling mode is spelt `trav` followed by the mode, and the spelling reads back to the mode |
| Validator.TravNodeTypeCode | yajl-validate/validator.h:41-47 | the four traversal node types are numbered below 4 |
| Validator.TravNodeTypeOfCode | yajl-validate/validator.h:41-47 | an integer names a traversal node type exactly when it is 0..3, and then it is that type's number |
| Validator.TravNodeTypeNameOfCode | yajl-validate/validator.h:49-65 | trav_node_type_name has a result exactly for the four enum values; any other value is the assertion failure |
| Validator.TravNodeTypeNameRoundTrip | yajl-validate/validator.h:52-61 | "travuser", "travsons", "traverror" and "travnone" name back to their variant, and only a variant's own name does |
| Validator.TravNodeTypeNameInjective | yajl-validate/validator.h:54-61 | distinct traversal node types have distinct names |
| Validator.TravNodeTypeCodeRoundTrip | yajl-validate/validator.h:41-47 | numbering a traversal node type and reading the number back gives the type |
| Headers.TravEnum | yajl-validate/gen.c:15-45 | the traversal enum is `TR_undefined`, then one `TR_<name>` per traversal in order, then `TR_anonymous` |
| Headers.GenTypesTrav | yajl-validate/gen.c:15-45 | the loop writes exactly the traversal enum |
| Headers.TravEnumDistinct | yajl-validate/gen.c:24-37 | with distinct lower-cased traversal names that are not "undefined" or "anonymous", all enum constants are distinct, so `TR_undefined` alone is 0 |
| Headers.NodetypeEnum | yajl-validate/gen.c:59-70 | the node type enum is `N_undefined` at position 0, then `N_<name>` for node i at position i+1 |
| Headers.GenTypesNodetype | yajl-validate/gen.c:50-81 | writes the node type enum, and MAX_NODES is the node count, which is the index of the last enumerator |
| Headers.GenNodeAlloc | yajl-validate/gen.c:324-367 | one NODE_ALLOC structure per node entry, in order |
| Headers.AllocLayout | yajl-validate/gen.c:340-363 | NODE_ALLOC_N_x holds the node structure, a son structure iff x has sons, and an attribute structure iff x has attributes or flags |
| Headers.GenFreeNodeH | yajl-validate/gen.c:193-214 | one FREE`<node>` prototype per node entry, in order |
| Headers.NonSets | yajl-validate/gen.c:479-483 | only names that are not node sets are kept, and they come from the registry |
| Headers.NodesOnly | yajl-validate/gen.c:447-451 | only names of kind `nnt_node` are kept |
| Headers.NonSetsMember | yajl-validate/gen.c:479-483 | a name is kept exactly when it is registered and is not a node set |
| Headers.NodesOnlyIsNonSets | yajl-validate/validator.h:35-39 | with only two name kinds, "is a node" and "is not a node set" select the same names |
| Headers.GenNonSetPrototypes | yajl-validate/gen.c:884-978 | the SET, SEL and SBT headers (and the CHK header, through GenCheckH) hold `<prefix><name>` for every registered name that is not a node set, in registry order |
| Headers.GenCheckResetH | yajl-validate/gen.c:403-430 | the entry point is CHKRSTdoTreeCheckReset, and there is one CHKRST prototype for every registered name, sets included |
| Headers.GenCheckNodeH | yajl-validate/gen.c:432-462 | CHKM prototypes only for names of kind `nnt_node` |
| Headers.GenCheckH | yajl-validate/gen.c:464-493 | the entry point is CHKdoTreeCheck, and there are CHK prototypes for the non-set names |
| Headers.GenFreeAttribsH | yajl-validate/gen.c:373-401 | writes one FREEattrib prototype per registered type that is not copied literally |
| Headers.FreeAttribProtosMember | yajl-validate/gen.c:387-396 | a FREEattrib prototype is declared exactly for the types that are not copied literally |
| Headers.GenSerializeAttribsH | yajl-validate/gen.c:843-880 | writes one SATserialize prototype per persisted type |
| Headers.SerializeAttribProtosMember | yajl-validate/gen.c:857-876 | a SATserialize prototype is declared exactly for the persisted types |
| Lifecycle.GenFreeNode | yajl-validate/gen.c:514-644 | one FREE`<node>` body per node entry, each the free derivation of that entry |
| Lifecycle.GenFreeFunction | yajl-validate/gen.c:549-636 | the body of one FREE function is its free derivation |
| Lifecycle.GenFreeAttrs | yajl-validate/gen.c:577-606 | the attribute loop yields the attribute frees of the derivation |
| Lifecycle.FreeAttrOpsMember | yajl-validate/gen.c:577-606 | an attribute is freed exactly when its type is not literal and it is not one of Fundef's Name, Mod, LinkMod, Types, Type or Impl |
| Lifecycle.FreeAttrOpsAppend | yajl-validate/gen.c:577-606 | attributes are freed in declaration order |
| Lifecycle.FreeBodyOrdered | yajl-validate/gen.c:556-636 | the instructions come in this order: zombify, then error node, then `Next`, then attributes, then sons, then release and return |
| Lifecycle.FreeBodyAttrs | yajl-validate/gen.c:577-606 | FREE`<node>` frees exactly the non-literal attributes other than Fundef's six exceptions |
| Lifecycle.FreeBodySons | yajl-validate/gen.c:572-575 | FREE`<node>` traverses every son except `Next`, and frees `Next` (behind the stop-marker guard) exactly when the node has one |
| Lifecycle.FreeBodyFrame | yajl-validate/gen.c:556-567 | a Fundef is zombified first; the error node is freed first otherwise; `Next` comes next; only non-Fundef bodies end with MEMfree and `return result` |
| Lifecycle.FreeReturns | yajl-validate/gen.c:623-636 | FREE returns the node itself for a Fundef, else its `Next` son when it has one, else NULL |
| Lifecycle.ReturnValueSkip | yajl-validate/gen.c:561-565 | instructions that neither set `result` nor return leave the returned value unchanged |
| Validation.GenCheckReset | yajl-validate/gen.c:647-745 | writes the fixed entry point, then one CHKRST body per node entry |
| Validation.GenResetFunction | yajl-validate/gen.c:709-732 | one CHKRST body is its reset derivation |
| Validation.ResetBodyShape | yajl-validate/gen.c:709-732 | CHKRST clears the visited flag, then descends into every son, `Next` included, in order, then returns the node |
| Validation.GenCheckNode | yajl-validate/gen.c:749-840 | one CHKM body per node entry |
| Validation.GenCheckFunction | yajl-validate/gen.c:773-829 | one CHKM body is its check derivation |
| Validation.GenTouchAttrs | yajl-validate/gen.c:791-810 | the attribute loop yields the touches of the derivation |
| Validation.TouchAttrOpsMember | yajl-validate/gen.c:791-810 | an attribute is touched exactly when its type is copied neither literally nor by function |
| Validation.CheckTouches | yajl-validate/gen.c:802-808 | CHKM touches exactly the attributes whose type is copied as a node |
| Validation.CheckSons | yajl-validate/gen.c:778-825 | CHKM starts by touching the node, then the error node, then `Next` when there is one, ends by returning the node, and traverses a son exactly when the node declares it (once each and in order: Agreement.CheckDescents) |
| Validation.ResetAndCheckVisitSameSons | yajl-validate/gen.c:716-728 | CHKRST and CHKM descend into the same sons |
| Serialization.SetSonOp | yajl-validate/gen.c:1055-1078 | each son is written either as a plain NULL or as the son itself |
| Serialization.GenSerializeNode | yajl-validate/gen.c:982-1101 | one SET body per node entry |
| Serialization.GenSerializeFunction | yajl-validate/gen.c:1011-1095 | one SET body is its serialise derivation |
| Serialization.GenEmitAttrs | yajl-validate/gen.c:1027-1048 | the attribute loop yields the attribute writes of the derivation |
| Serialization.GenSetSons | yajl-validate/gen.c:1051-1080 | the son loop yields one write per son |
| Serialization.GenEmitFlags | yajl-validate/gen.c:1083-1090 | the flag loop yields one write per flag |
| Serialization.EmitAttrOpsMember | yajl-validate/gen.c:1027-1048 | an attribute is written exactly when its type is persisted |
| Serialization.SetSonOpsMember | yajl-validate/gen.c:1051-1080 | a son is written as NULL or as itself exactly when it is declared and the son rule says so |
| Serialization.SetWritesAttrs | yajl-validate/gen.c:1027-1048 | SET writes exactly the attributes of persisted types |
| Serialization.SetWritesSons | yajl-validate/gen.c:1051-1080 | SET writes each declared son, as NULL or as itself, and nothing else |
| Serialization.SetWrites | yajl-validate/gen.c:1051-1080 | SET writes NULL exactly for Fundef.Body and the `Next` of Fundef, Typedef and Objdef, and the son itself for every other son |
| Serialization.GenSerializeLink | yajl-validate/gen.c:1105-1224 | one SEL body per node entry |
| Serialization.GenFixLinks | yajl-validate/gen.c:1140-1169 | the link loop yields the fixes of the derivation |
| Serialization.FixLinkOps | yajl-validate/gen.c:1140-1169 | one fix per Link/CodeLink attribute, numbered 1, 2, ... |
| Serialization.FixLinkOpsAt | yajl-validate/gen.c:1140-1169 | the j-th attribute, when it is a link, gets the fix numbered one more than the links before it |
| Serialization.FixLinkOpsSound | yajl-validate/gen.c:1140-1169 | every fix comes from a link attribute |
| Serialization.LinkCountAppend | yajl-validate/gen.c:1140-1167 | the running counter `pos` adds up over consecutive attribute runs |
| Serialization.GenSelSons | yajl-validate/gen.c:1172-1192 | the SEL son loop yields a visit for every son except Fundef.Next, Fundef.Body, Typedef.Next and Objdef.Next, and for nothing else, in declaration order |
| Serialization.SelSonOps | yajl-validate/gen.c:1172-1192 | SEL visits a son exactly when the node declares it and does not skip it (Fundef.Next, Fundef.Body, Typedef.Next, Objdef.Next) |
| Serialization.SbtSonOps | yajl-validate/gen.c:1484-1504 | SBT visits a son exactly when the node declares it and does not skip it (Fundef.Next, Fundef.Body, Objdef.Next, Typedef.Next) |
| Serialization.GenNodeAttrs | yajl-validate/gen.c:1195-1213 | the attribute loop yields a visit for an attribute name exactly when an attribute of that name has type `Node`, and nothing else |
| Serialization.NodeAttrOpsAppend | yajl-validate/gen.c:1506-1523 | the `Node` attributes are visited in declaration order: the visits for a split declaration are those of its parts, in order |
| Serialization.GenSerializeBuildstack | yajl-validate/gen.c:1451-1536 | one SBT body per node entry |
| Serialization.SbtPushesFirst | yajl-validate/gen.c:1476-1481 | SBT pushes the node before anything else and only once, and SEL never pushes |
| Deserialization.MakeAttrOps | yajl-validate/gen.c:1301-1322 | one constructor step per attribute, in order: an argument read for a persisted type, the type's initialiser otherwise |
| Deserialization.GenSerializeHelper | yajl-validate/gen.c:1227-1448 | one SHLPmakeNodeVa case and one SHLPfixLink case per node entry |
| Deserialization.GenMakeCases | yajl-validate/gen.c:1264-1350 | one SHLPmakeNodeVa case per node entry |
| Deserialization.GenMakeCase | yajl-validate/gen.c:1275-1347 | one SHLPmakeNodeVa case is its constructor derivation |
| Deserialization.GenMakeAttrs | yajl-validate/gen.c:1301-1322 | the attribute loop yields the attribute steps of the derivation |
| Deserialization.GenArgSons | yajl-validate/gen.c:1326-1333 | one argument read per son, in order |
| Deserialization.GenArgFlags | yajl-validate/gen.c:1336-1343 | one argument read per flag, in order |
| Deserialization.GenFixCases | yajl-validate/gen.c:1389-1436 | one SHLPfixLink case per node entry |
| Deserialization.GenFixCase | yajl-validate/gen.c:1397-1433 | one SHLPfixLink case is its slot-switch derivation |
| Deserialization.GenFixSlot | yajl-validate/gen.c:1399-1431 | one attribute step of the slot loop: `pos` counts the links seen plus one; the switch opens at the first link, gets a case per link, and gets a default after the last attribute if any link was seen |
| Deserialization.LinkCases | yajl-validate/gen.c:1408-1420 | one slot case per link attribute, numbered 1, 2, ... |
| Deserialization.LinkCasesAt | yajl-validate/gen.c:1408-1420 | the j-th attribute, when it is a link, gets the case numbered one more than the links before it |
| Deserialization.LinkCasesSound | yajl-validate/gen.c:1408-1420 | every slot case comes from a link attribute |
| Deserialization.SwitchPrefixAt | yajl-validate/gen.c:1408-1420 | one attribute extends the slot switch by a case exactly when it is a link, opening the switch at the first link |
| Deserialization.MakeBodySets | yajl-validate/gen.c:1301-1346 | after the header, the constructor reads each persisted attribute, initialises each other attribute, reads each son and each flag, all in declaration order, then breaks |
| Deserialization.MakeBodyAttrs | yajl-validate/gen.c:1301-1322 | the attribute steps sit right after the case header, in declaration order |
| Deserialization.MakeBodySons | yajl-validate/gen.c:1326-1333 | the son reads follow the attributes, in declaration order |
| Deserialization.MakeBodyFlags | yajl-validate/gen.c:1336-1346 | the flag reads follow the sons, and the case ends with `break` |
| Agreement.WrittenAttrs | yajl-validate/gen.c:1027-1048 | SET's attribute loop writes the persisted attribute slots, in order |
| Agreement.ConsumedAttrs | yajl-validate/gen.c:1301-1322 | the constructor's attribute loop reads the persisted attribute slots, in order |
| Agreement.WrittenSons | yajl-validate/gen.c:1051-1080 | SET writes one son slot per son, in order |
| Agreement.ConsumedSons | yajl-validate/gen.c:1326-1333 | the constructor reads one son slot per son, in order |
| Agreement.WrittenFlags | yajl-validate/gen.c:1083-1090 | SET writes one flag slot per flag, in order |
| Agreement.ConsumedFlags | yajl-validate/gen.c:1336-1343 | the constructor reads one flag slot per flag, in order |
| Agreement.SetWritesArguments | yajl-validate/gen.c:1011-1095 | SET writes exactly the node's argument slots: persisted attributes, then sons, then flags |
| Agreement.MakeReadsArguments | yajl-validate/gen.c:1275-1347 | the SHLPmakeNodeVa case reads exactly the same slot sequence |
| Agreement.SetAndMakeAgree | yajl-validate/gen.c:1027-1090 | the slots SET writes are the slots SHLPmakeNodeVa reads, in the same order |
| Agreement.SelSonsAreSbtSons | yajl-validate/gen.c:1172-1192 | SEL and SBT skip the same sons and visit the others in the same order |
| Agreement.SelAndSbtVisitAlike | yajl-validate/gen.c:1484-1525 | after SBT's push and SEL's fixes, both visit the same children in the same order, and both descend into exactly the kept sons in declaration order |
| Agreement.SbtSonsInOrder | yajl-validate/gen.c:1484-1503 | SBT descends into exactly the sons other than Fundef.Next, Fundef.Body, Objdef.Next and Typedef.Next, each once, in declaration order |
| Agreement.SbtBodyVisits | yajl-validate/gen.c:1476-1528 | SBT descends into exactly the kept sons in declaration order, visits an attribute exactly when it has type `Node`, and makes every son visit before every attribute visit |
| Agreement.SelBodyDescents | yajl-validate/gen.c:1172-1192 | SEL descends into the same sons as SBT, in the same order |
| Agreement.SetNullsWhatSbtSkips | yajl-validate/gen.c:1060-1068 | SET writes NULL for exactly the sons that SBT and SEL skip |
| Agreement.FixesMatchCases | yajl-validate/gen.c:1399-1420 | SEL's k-th fix and SHLPfixLink's k-th slot case name the same attribute |
| Agreement.SelFixesAreFixLinkCases | yajl-validate/gen.c:1140-1167 | SEL writes fix (x, k) exactly when SHLPfixLink has case k setting x, and k is between 1 and the number of links |
| Agreement.LayoutAgrees | yajl-validate/gen.c:1291-1299 | the constructor points the sons (attributes) union at its sub-structure exactly when NODE_ALLOC has the son (attribute) structure, i.e. when there are sons (attributes or flags) |
| Agreement.MakeArgumentsBindNothing | yajl-validate/gen.c:1301-1346 | the sons and attributes unions are set only in the case header |
| Agreement.DescentsExceptNext | yajl-validate/gen.c:608-621 | the son loop descends into the sons other than `Next`, in order |
| Agreement.FreeDescents | yajl-validate/gen.c:566-621 | FREE descends into `Next` first, then the other sons in order |
| Agreement.CheckDescents | yajl-validate/gen.c:786-825 | CHKM descends into the sons in the same order as FREE |
| Agreement.ResetDescents | yajl-validate/gen.c:716-728 | CHKRST descends into the sons in declaration order, the same set that FREE and CHKM visit |
| Agreement.FreeCallsAreDeclared | yajl-validate/gen.c:602-604 | every FREEattrib`<type>` that FREE calls is declared by the free-attribs header |
| Agreement.SetCallsAreDeclared | yajl-validate/gen.c:1039-1046 | every SATserialize`<type>` that SET calls is declared by the serialize-attribs header |
| Runtime.CaseFor | yajl-validate/gen.c:1386-1397 | the node-type switch has no case exactly when no node entry has that type |
| Runtime.FixLinkRun | yajl-validate/gen.c:1374-1442 | SHLPfixLink does nothing when `from` is not found, and otherwise changes only the `from` entry and keeps its type |
| Runtime.CaseForFirst | yajl-validate/gen.c:1389-1397 | the switch dispatches to the case of the first entry of that name |
| Runtime.FixCaseSlots | yajl-validate/gen.c:1399-1428 | every slot number in a case selects one attribute and lies between 1 and the number of links |
| Runtime.SelFixIsApplied | yajl-validate/gen.c:1380-1418 | a fix that SEL writes sets the link of the `from` node to the `to` entry, or to NULL when `to` is not found |
| Runtime.UnmatchedSlotIsIgnored | yajl-validate/gen.c:1425-1428 | an unknown slot number falls to `default: break` and leaves the stack unchanged |
| Runtime.UnknownTypeIsUnreachable | yajl-validate/gen.c:1438-1439 | a node type without a case reaches the unreachable default |
| Runtime.SelCallRestoresLink | yajl-validate/gen.c:1149-1165 | SEL writes a call only for a non-NULL link found on the stack, and replaying that call sets the link back to the same stack entry |
| Runtime.ResetRootKeepsNext | yajl-validate/gen.c:662-699 | the reset entry point hides a Fundef's `Next` from the traversal and restores it afterwards; other roots keep `Next` throughout |
| Runtime.SerialiseAttrs | yajl-validate/gen.c:1027-1048 | the attribute part of SET's output is the persisted attribute values, in order |
| Runtime.SerialiseSons | yajl-validate/gen.c:1051-1080 | the son part of SET's output is NULL for the skipped sons and each son's value otherwise |
| Runtime.SerialiseFlags | yajl-validate/gen.c:1083-1090 | the flag part of SET's output is the flag values, in order |
| Runtime.SetArguments | yajl-validate/gen.c:1011-1095 | SET's whole output is the attribute values, then the sons, then the flags |
| Runtime.ConstructAttrs | yajl-validate/gen.c:1301-1322 | the attribute steps read the persisted values and initialise the rest |
| Runtime.ConstructSons | yajl-validate/gen.c:1326-1333 | the son steps read one son each |
| Runtime.ConstructFlags | yajl-validate/gen.c:1336-1343 | the flag steps read one flag each |
| Runtime.ConstructHead | yajl-validate/gen.c:1275-1299 | the case header reads no argument |
| Runtime.ConstructMake | yajl-validate/gen.c:1275-1347 | the SHLPmakeNodeVa case run on SET's argument list builds the node and consumes every argument |
| Runtime.RoundTrip | yajl-validate/gen.c:1011-1095 | constructing from what SET writes gives: every persisted attribute's value, the initialiser for the other attributes, NULL for the skipped sons, every other son, and every flag; no argument is left over and none is missing |
| Runtime.AttrsAfterAt | yajl-validate/gen.c:1314-1320 | after the round trip, the last attribute of each name holds its value if persisted and its initialiser otherwise |
| Runtime.AttrsAfterKeys | yajl-validate/gen.c:1301-1322 | after the round trip, exactly the declared attributes are set |
| Runtime.SonsAfterAt | yajl-validate/gen.c:1326-1333 | after the round trip, each son holds its value, or NULL when SET skips it |
| Runtime.FlagsAfterAt | yajl-validate/gen.c:1336-1343 | after the round trip, each flag holds its value |

## Left out

- File output and layout are not modelled: `GEN_OPEN_FILE`, `GEN_HEADER`, `GEN_FLUSH_AND_CLOSE`, the `#include` lists, `DBUG_*` lines and whitespace. Bodies are sequences of abstract instructions, not C text.
- The generators' `bool` result is not modelled. It is always `true`.
- yajl tree access is replaced by ordered sequences in the schema. uthash registries are sequences in their iteration order, and `HASH_FIND_STR` is the first match. The `assert (atn)` lookups are the precondition that every attribute type is registered.
- string_tolower and string_toupper are not part of this model. Their use is modelled as ASCII case maps (`Text`).
- The rest of the program is not part of this model:
  - the schema validation, regular expressions, JSON parsing and file lookup declared in validator.h;
  - gen_sons_h, gen_attribs_h and gen_node_info_mac.
- The runtime routines the derived code only calls (TRAVdo, MEMfree, FREEzombify, FREEattrib*, SATserialize*, SSpush, SSfindPos, SSlookup, CHKMtouch, va_arg) are uninterpreted instructions. Their effect is modelled only for SHLPmakeNodeVa, SHLPfixLink and the reset entry point, in `Runtime`.
- The type-level alternative `vtype` for `va_arg` is kept in the data, but the argument's C type is not modelled.
- Every son value is taken to be a JSON object. FREE and CHKM look for `Next` only as an object (gen.c:571, 785), but the son loops skip `Next` by name (gen.c:613, 817). The model uses one membership test, `"Next" in n.sons`, for both.
- Runtime.RoundTrip: values are abstract. An attribute value is taken in its serialised form, and a son is NULL or a node identity, so nested serialisation of sons is not unfolded. The node-type dispatch of SHLPmakeNodeVa, and the file, line and column SET writes in the header, are not part of the argument list the proof follows.
- Runtime.RoundTrip: the node read by SET is given as total functions from field names to values. A node of the type has every field its entry declares.
- Runtime.SelCallRestoresLink: the `from` position is taken as found on the stack. SBT pushes every node SEL visits, and the stack routines themselves are not part of this model.
- Runtime.ResetRootKeepsNext: the node-type assertions at the top of CHKRSTdoTreeCheckReset and the traversal itself (TRAVpush, TRAVdo, TRAVpop) are abstract. Only the `Next` field's value around the traversal is followed.
- Where the source's comments and its code differ, the model follows the code:
  - FREEfundef skips `Impl` as well as the attributes its comment lists;
  - an SHLPfixLink slot number that the node type does not have is ignored by `default: break`, not rejected;
  - SET and the constructor decide persistence by the attribute type's flag;
  - `MAX_NODES` is the node count, which is the index of the last enumerator, as the FIXME at yajl-validate/gen.c:72-74 notes.
