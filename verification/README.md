# allib: a verified model

A Dafny model of the parts of this C library that turn on state, branching or arithmetic: brace
expansion and wildcard matching (`niglob/`), the template compiler and the integer codec
(`minifmt.c`), path lookup in indented configuration text (`miniconf.c`), three allocators
(`kallok/`), the doubly linked list (`linked_list/`), the dynamic list over a strided byte buffer
(`dynamic_list/`, `memlib.c`) and the FNV-1a hashes (`kash/fnv1a.c`).

`dafny verify dfyconfig.toml` checks everything.

Each component has the same two layers. Imperative classes and methods follow the C functions loop
by loop: they overwrite buffers, relink nodes, free strings. Their contracts tie the new state to a
specification: a function of the old state, or a state machine with its steps. Lemmas then say what
the specification means: what every run keeps, what is inverse to what, and, where the code does
not meet a promise on all inputs, the exact condition under which it does.

| files | what they model |
|---|---|
| `CurlySpec.dfy`, `CurlyExpansion.dfy` | brace expansion: meaning, and who owns which heap string |
| `Glob.dfy` | the non-backtracking wildcard matcher |
| `NumberText.dfy`, `Numerals.dfy` | integers to digits and back, and what a numeral is |
| `TemplateSpec.dfy`, `Template.dfy` | templates, compiled by overwriting the buffer they are in |
| `ConfigSpec.dfy`, `Config.dfy` | indented lines as a tree, and lookup on the lines |
| `AllocatorContract.dfy` | what a client may rely on: blocks, their sizes, their bytes |
| `FastAlloc.dfy`, `FixedBasicAlloc.dfy`, `MultiAlloc.dfy` | bump, chunk and composed allocator |
| `FixedBasicBlocks.dfy` | the chunk allocator against the contract |
| `LinkedList.dfy` | two mirrored chains of heap nodes |
| `LinkedListRuns.dfy` | runs over several lists with one allocator |
| `DynamicListSpec.dfy`, `SlotBuffer.dfy`, `DynamicList.dfy` | capacity, slots in bytes, the list |
| `StridedCopy.dfy` | copying between arrays of different stride |
| `Fnv1a.dfy` | the hashes |
| `Bits.dfy`, `Bytes.dfy`, `CStrings.dfy`, `Options.dfy` | words, byte buffers, NUL-terminated strings, values that may be missing |

## What holds only in part

These promises are not kept on all inputs. Each line names what states exactly when they are kept.

- Nested brace groups: the header lists what `aa{b{,e},{c,d},}f` yields, but the code divides a
  group at every comma, however deep. `CurlySpec.DenotesIff`, `CurlySpec.HeaderExample`.
- Wildcards: a star takes the first place where the next character fits and never tries another.
  `Glob.CompleteIff`.
- Digits above nine are written as letters from `a` and read back as zero and up.
  `NumberText.RoundTripIff`.
- After each step of a configuration path, the parent's own line is still the first one, so a
  segment equal to the one before it finds the parent again. `ConfigSpec.AgreesIff`.
- Splitting a configuration path at its slashes skips the key after a leading slash.
  `ConfigSpec.JoinOfSegments`.
- The masked copy repeats its mask every 128 bytes, not every stride. `StridedCopy.MaskedExactIff`.
- Two equal strides from 129 to the element size plus 128 lead into a branch that the code declares
  unreachable. The precondition of `StridedCopy.StridedMemcpy`, with `StridedCopy.TakesMask`.
- The chunk allocator adds bytes to a chunk index when it checks for room, and counts bytes when it
  checks a pointer that is given back. `FixedBasicAlloc.AllocKeeps`, `FixedBasicAlloc.FreeKeeps`;
  `FixedBasicAlloc.FreshRefuses` and `FixedBasicAlloc.SecondChunkLost` are reachable instances.
- A request of a multiple of 33 bytes is one byte larger than the chunks taken for it.
  `FixedBasicAlloc.FitsIff`, with the instance `FixedBasicAlloc.LastByteIsHeader`.
- Appending a list to an empty one never sets the start, and inserting after a middle node leaves
  the successor's `prev` behind. `LinkedList.DoubleLinkedList.AddAllClearOld`,
  `LinkedList.DoubleLinkedList.InsertAfter`.
- The 16-bit fold of the hash keeps what the 32-bit and 64-bit hashes guarantee for one changed
  byte only for strings of at most one byte. `Fnv1a.FoldSeparatesIff`.

## Model

| member | source | states |
|---|---|---|
| `CurlySpec.EmptyIff` | niglob/niglob.c:120-149 | for every string: expansion yields nothing exactly when some opening brace has no match, stray closing braces passed over |
| `CurlySpec.DenotesIff` | niglob/niglob.c:149-194 | a printed pattern of any nesting expands to what it stands for exactly when its inner groups have no comma |
| `CurlySpec.FlatDenotes` | niglob/niglob.c:93-203 | on patterns whose inner groups have one option, the results are the denotation: the product in lexicographic order, inner braces erased |
| `CurlySpec.DenoteCount` | niglob/niglob.c:166-194 | the denotation has as many strings as the product of the option counts, and at least one |
| `CurlySpec.ProductAt` | niglob/niglob.c:166-194 | the string at each position of a product: the options of the left group vary slowest |
| `CurlySpec.ResultAt` | niglob/niglob.c:93-203 | for every text whose first opening brace is matched, whatever its parts hold: which result stands at which position, in terms of the expansions of the comma-separated parts and of what follows |
| `CurlySpec.Witness` | niglob/niglob.c:155-162 | an inner comma always leaves a result that keeps a closing brace of a group |
| `CurlySpec.HeaderExample` | niglob/niglob.h:21-22 | what the header's nested example stands for, and the three strings it expands to instead |
| `CurlyExpansion.FindClose` | niglob/niglob.c:122-139 | the scan with a nesting counter finds the brace that matches the first one, or the end |
| `CurlyExpansion.AppendRow` | niglob/niglob.c:169-194 | one option with every rest: new strings, each owned by one new entry, from texts that are still on the heap |
| `CurlyExpansion.Combine` | niglob/niglob.c:164-202 | the double loop adds the whole product, and frees the owned strings of both lists once each |
| `CurlyExpansion.CurlyExpOptions` | niglob/niglob.c:151-162 | the comma loop collects the expansions of all options in order |
| `CurlyExpansion.CurlyExpRec` | niglob/niglob.c:93-203 | for every slice: the entries added have the expansion's texts, and the heap gains exactly the strings they own |
| `CurlyExpansion.GainedDrop` | niglob/niglob.c:196-202 | a dropped entry's string is on the heap when it is freed, and no other entry owns it |
| `CurlyExpansion.Curlyexp` | niglob/niglob.c:205-247 | every result becomes a string of its own; nothing else stays on the heap |
| `CurlyExpansion.HandedMeans` | niglob/niglob.c:222-246 | the heap has exactly `count` more strings, all different, holding the results, and the old ones are untouched |
| `CurlyExpansion.CurlyexpFree` | niglob/niglob.c:249-253 | each result is freed once and the heap is as before the expansion |
| `CurlyExpansion.ExpandAndFree` | niglob/niglob.c:205-253 | expanding and releasing any pattern leaves no string behind |
| `Glob.PatternEq` | niglob/niglob.c:36-73 | for all buffers: true exactly when the value splits so that each star takes a non-empty piece that, after its first character, avoids the next literal; a pattern without stars matches itself alone, up to the case of letters if that is ignored; no read past either NUL |
| `Glob.SkipTo` | niglob/niglob.c:54-61 | the inner loop stops at the first later occurrence, or fails at the NUL |
| `Glob.LazyIsLeftmost` | niglob/niglob.c:40-63 | deciding left to right is the same as asking for an assignment of leftmost pieces |
| `Glob.Sound` | niglob/niglob.c:36-73 | whatever matches is in the glob language |
| `Glob.StarExchange` | niglob/niglob.c:54-62 | a piece of a star can be cut at the first occurrence of the next literal when a star follows to take the rest |
| `Glob.SeparatedComplete` | niglob/niglob.c:48-63 | if any assignment matches a pattern whose literals after a star are each followed by a star, the matcher finds the match |
| `Glob.UnseparatedMisses` | niglob/niglob.c:54-62 | any other pattern has a value of its language that the matcher rejects |
| `Glob.CompleteIff` | niglob/niglob.c:48-63 | the matcher accepts its whole language exactly when every literal after a star is followed by a star |
| `Glob.IgnoringCase` | niglob/niglob.c:29-34 | ignoring case is matching the lower-cased pattern against the lower-cased value |
| `Glob.CharEqIff` | niglob/niglob.c:29-34 | with case ignored two characters are equal exactly when they are the same or the two cases of one of the 26 letters; otherwise exactly when they are the same |
| `Glob.CaseIsIgnored` | niglob/niglob.c:29-34 | with case ignored, changing the case of letters in pattern or value never changes the outcome |
| `Glob.StarFreeIff` | niglob/niglob.c:36-73 | a pattern without stars matches exactly the values that agree with it position by position |
| `Glob.WrittenTokens` | niglob/niglob.c:37-71 | reading a pattern loses nothing: its tokens, literal stars doubled, write it again |
| `NumberText.Rev` | minifmt.c:7-19 | reverses the inclusive range, given in either order, and nothing else |
| `NumberText.EmitDigits` | minifmt.c:98-105 | the digit loop leaves the digits in reverse |
| `NumberText.LlToAscii` | minifmt.c:85-113 | writes the digits and a NUL within 65 characters and changes nothing else |
| `NumberText.EncodePositional` | minifmt.c:85-113 | for radix 2 to 36: no leading zero, positional value the absolute value, the power bounds, at most 65 characters with sign and NUL |
| `Numerals.EncodeIff` | minifmt.c:85-113 | for radix 2 to 36 the result is the one text made of a minus sign if negative, no leading zero, and shapes 0-9 and a-z of digits below the radix whose positional value is the magnitude; zero is a single zero |
| `NumberText.DigitsMagnitude` | minifmt.c:98-105 | the number of digits brackets the value between two powers of the radix |
| `NumberText.AsciiToLl` | minifmt.c:21-54 | Horner evaluation after the sign, and whether every intermediate value fits |
| `Numerals.DecodeValue` | minifmt.c:21-54 | digits have their positional value, behind a plus sign too, and behind a minus sign the negated one |
| `Numerals.StaysIff` | minifmt.c:38-49 | evaluation stays in range exactly when at every digit the value before it times the radix, and the value with it, fit a `long long` |
| `NumberText.DigitsReadBack` | minifmt.c:38-49 | digits read back never exceed the value, never overflow, and give the value exactly when none is a letter |
| `NumberText.RoundTripIff` | minifmt.c:21-113 | decoding an encoded value gives it back exactly when it has no letter digit |
| `NumberText.RoundTrip` | minifmt.c:21-113 | for radix 2 to 10 the round trip is the identity, without overflow |
| `TemplateSpec.ParseReassembles` | minifmt.c:157-209 | the pieces of a template put together are the template, up to a brace that is never closed |
| `TemplateSpec.UnparseParses` | minifmt.c:169-209 | printed pieces are read back exactly |
| `TemplateSpec.RenderIsSubstitute` | minifmt.c:222-250 | rendering the pieces is one pass of substitution over the original text |
| `TemplateSpec.SubstituteFails` | minifmt.c:236-238 | the result is null exactly when some field is unresolved |
| `TemplateSpec.ResolveFails` | minifmt.c:261-298 | a field has no text exactly when no placeholder has its key, or the first one that has it is a null string or of an unknown type |
| `TemplateSpec.ResolveText` | minifmt.c:261-298 | the text of a field: a string is itself; a number is written in radix 16 if the flag has an h, else 2 if it has a b, else 8 if it has an o, else 10 |
| `TemplateSpec.SubstituteUnclosed` | minifmt.c:157-213 | a brace that is never closed drops itself and all that follows |
| `TemplateSpec.SubstituteThen` | minifmt.c:222-250 | text, a field and what follows: the text, what stands for the field, and the rest substituted, or null |
| `TemplateSpec.SubstituteField` | minifmt.c:151-299 | the whole result for a template with one field, numerals included |
| `Template.CloseBrace` | minifmt.c:178-199 | the writes that close a field delimit exactly its key, its flag and the text before it |
| `Template.Scan` | minifmt.c:157-209 | after the scan, each element points at its piece of the original text in the overwritten buffer |
| `Template.MeasureTexts` | minifmt.c:211-213 | the later pass finds the length of every text piece |
| `Template.Compile` | minifmt.c:151-216 | for every NUL-terminated buffer: text, field, text and so on, readable in the overwritten buffer |
| `Template.Fmt.Add` | minifmt.c:145-148 | appends one element |
| `Template.PlaceholderFind` | minifmt.c:257-299 | resolves the key and flag of the field; numbers are left in the shared buffer, in the radix that `TemplateSpec.ResolveText` gives |
| `Template.WriteNumber` | minifmt.c:268-281 | the text is the numeral of the value in radix 16 if the flag has an h, else 2 if it has a b, else 8 if it has an o, else 10; it fits the shared buffer |
| `Template.Format` | minifmt.c:222-255 | renders all elements although every number goes through one shared buffer |
| `Template.CompileAndFormat` | minifmt.c:151-255 | compiling in place and formatting equals direct substitution in the original text, whose outcome `TemplateSpec.SubstituteThen` and `TemplateSpec.ResolveText` fix |
| `Config.Config.AddLine` | miniconf.h:29-32 | appends one line |
| `Config.Config.AddAllLinesAdv` | miniconf.h:34-43 | appends a range of lines without their first columns |
| `Config.Config.AddAllLines` | miniconf.h:45-49 | appends all lines |
| `Config.FindLine` | miniconf.c:9-31 | the first line that starts with the key and a colon and not with a space, none when there is no such line, and what is cut from there on |
| `ConfigSpec.NamesIff` | miniconf.c:11-26 | a line is found exactly when it starts with the key and then its first colon, and not with a space; one without a colon never is |
| `ConfigSpec.ChildIff` | miniconf.c:4-49 | what a step finds, by line numbers: the first line with the key, and all lines below it up to the next unindented one, without their first four columns; nothing exactly when no line has the key |
| `Config.ConfigChild` | miniconf.c:4-49 | cuts the line and its indented block, four columns stripped; leaves all as it was when the key is missing |
| `Config.CutPath` | miniconf.c:64-66 | replacing slashes delimits exactly the segments |
| `Config.ConfigStep` | miniconf.c:77-87 | one segment of the path |
| `Config.ConfigChildren` | miniconf.c:51-101 | walks all segments of the path; nothing is added when one is missing |
| `Config.ConfigValue` | miniconf.c:103-113 | none exactly without a line or a colon in it; otherwise the first line is text without a colon, a colon, spaces, and the value, which starts with no space |
| `ConfigSpec.ValueIff` | miniconf.c:108-112 | the value is the only string for which the first line can be read that way |
| `Config.LookUp` | miniconf.c:51-113 | on a printed forest and an existing path: the node's header, its children at indent zero, and its value |
| `ConfigSpec.StepOnPrint` | miniconf.c:4-49 | a step on printed lines is the printing of a step in the forest, to the node's own line and its children |
| `ConfigSpec.BlockShifted` | miniconf.c:36-48 | cutting a block and stripping four columns undoes printing it one level deeper |
| `ConfigSpec.WalkOnPrint` | miniconf.c:68-91 | the same for whole paths, at any depth, missing nodes included |
| `ConfigSpec.NoRepeatAgrees` | miniconf.c:45-48 | without equal neighbouring segments the walk is descent in the tree |
| `ConfigSpec.AgreesIff` | miniconf.c:45-48 | the walk agrees with descent in every forest exactly for the paths without equal neighbouring segments |
| `ConfigSpec.LookupOnPrint` | miniconf.c:51-113 | lookup in the text against descent in the tree, found or not |
| `ConfigSpec.SegmentsOfJoin` | miniconf.c:64-75 | splitting a joined path gives its keys back |
| `ConfigSpec.JoinOfSegments` | miniconf.c:64-75 | joining the segments of a path gives the path back exactly when it does not start with a slash; after a leading slash the first key is skipped |
| `FastAlloc.BumpCuts` | kallok/fastalloc.c:26-61 | the bytes cut off lie in the current chunk and touch no held block, whether or not the chunk is new |
| `FastAlloc.AllocKeeps` | kallok/fastalloc.c:26-61 | an allocation is apart from all held blocks and inside a backing chunk; it succeeds exactly when the bytes fit the current chunk, or the chunk can be entered in the table and the backing gives one of 1024 bytes, or of twice the request; every field afterwards |
| `FastAlloc.GrowKeeps` | kallok/fastalloc.c:70-74 | growing in place stays in the chunk and reaches no other block |
| `FastAlloc.MoveKeeps` | kallok/fastalloc.c:76-80 | a moved block keeps its bytes, the others keep theirs |
| `FastAlloc.ReallocKeeps` | kallok/fastalloc.c:63-81 | shrinking, and growing at the bump pointer, stay in place and never fail; otherwise the block moves, under the condition of an allocation; its bytes are kept, and a failed resize changes no block |
| `FastAlloc.FreeKeeps` | kallok/fastalloc.c:17-24 | the release that a free triggers happens only when nothing is held |
| `FastAlloc.RunKeeps` | kallok/fastalloc.c:17-81 | over every run up to a release: the invariant, and size and bytes of any block the run does not mention |
| `FastAlloc.EventMeans` | kallok/fastalloc.c:17-81 | what each operation of a run does, field by field: outcome of requests and resizes, count, release, written byte |
| `FastAlloc.RunPush` | kallok/fastalloc.c:17-81 | the last event of a run happens to what the run before it has left |
| `FastAlloc.RunSafe` | kallok/fastalloc.c:17-81 | over every run from a fresh allocator: held blocks pairwise apart, inside chunks, at least as many live allocations as held blocks |
| `FastAlloc.FastAllocator.NewChunk` | kallok/fastalloc.c:30-52 | replaces the chunk, its predecessor entered in the table, the table kept even when no chunk comes; succeeds exactly when the predecessor, if any, could be entered and a chunk comes |
| `FastAlloc.FastAllocator.Bumped` | kallok/fastalloc.c:26-61 | cuts the bytes off the current chunk if they fit, else off a new one; every field afterwards |
| `FastAlloc.FastAllocator.AllocAlloc` | kallok/fastalloc.c:26-61 | allocates under exactly that condition, at the old bump pointer or at the start of the new chunk, meeting the allocator contract |
| `FastAlloc.FastAllocator.AllocRealloc` | kallok/fastalloc.c:63-81 | resizes in place or by moving, failing only when a move gets no chunk, meeting the allocator contract |
| `FastAlloc.FastAllocator.AllocFree` | kallok/fastalloc.c:17-24 | gives back as one step of a run; the null pointer does nothing |
| `FixedBasicAlloc.MakeMultipleIsLeast` | kallok/kallok.h:13-20 | rounding gives the least multiple at or above |
| `FixedBasicAlloc.FitsIff` | kallok/fixed_basic.c:54-55 | the chunks taken for a request have room for it exactly when it is no multiple of the chunk size |
| `FixedBasicAlloc.Layout` | kallok/fixed_basic.c:12-17 | chunk `i` starts at byte 33 `i` with its header, and its 32 data bytes follow |
| `FixedBasicAlloc.AllocKeeps` | kallok/fixed_basic.c:47-84 | finds the lowest unused chunk and moves the hint to the next unused one; succeeds exactly when one exists and the request, counted in chunks from the hint, stays inside |
| `FixedBasicAlloc.FreeKeeps` | kallok/fixed_basic.c:33-45 | exactly the chunks that start within the byte bound become free, and lower the hint; others stay in use for good |
| `FixedBasicAlloc.ReallocKeeps` | kallok/fixed_basic.c:86-93 | a block moves exactly when a request of the new size would succeed, keeps its bytes and leaves all other data; what is in use and the hint afterwards |
| `FixedBasicAlloc.EmptyIff` | kallok/fixed_basic.c:19-31 | no header is set exactly when nothing is held and nothing leaked |
| `FixedBasicAlloc.RunKeeps` | kallok/fixed_basic.c:33-93 | over every run: the invariant, and the data of any block the run does not mention |
| `FixedBasicAlloc.EventMeans` | kallok/fixed_basic.c:33-93 | what each operation of a run does to the chunks in use, to the hint and to the data |
| `FixedBasicAlloc.RunPush` | kallok/fixed_basic.c:33-93 | the last event of a run happens to what the run before it has left |
| `FixedBasicAlloc.RunSafe` | kallok/fixed_basic.c:19-93 | from a fresh buffer: headers say exactly which chunks are in use, all chunks before the hint are, emptiness means nothing held or leaked |
| `FixedBasicAlloc.LeakedStays` | kallok/fixed_basic.c:36-37 | a chunk whose pointer was refused stays in use in every later run |
| `FixedBasicAlloc.FreshRefuses` | kallok/fixed_basic.c:49-52 | a fresh buffer of fewer chunks than the bytes asked for refuses, with all chunks free |
| `FixedBasicAlloc.SecondChunkLost` | kallok/fixed_basic.c:36-37 | a run on two chunks that gives the second one back in vain |
| `FixedBasicAlloc.LastByteIsHeader` | kallok/fixed_basic.c:54-55 | a request of 33 bytes gets one chunk and its last byte is the next chunk's header |
| `FixedBasicBlocks.AllocMeetsContract` | kallok/fixed_basic.c:47-84 | allocation meets the allocator contract: the new block is apart from all held ones, whose bytes stay |
| `FixedBasicBlocks.FreeMeetsContract` | kallok/fixed_basic.c:33-45 | giving back meets the contract, whether or not the chunk becomes free |
| `FixedBasicBlocks.ReallocMeetsContract` | kallok/fixed_basic.c:86-93 | resizing meets the contract: bytes kept, other blocks untouched, nothing changed on failure |
| `FixedBasicBlocks.RunApart` | kallok/fixed_basic.c:33-93 | over every run from a fresh buffer the byte ranges of held blocks are pairwise apart and inside the buffer |
| `FixedBasicAlloc.FixedBasicAllocator.IsEmpty` | kallok/fixed_basic.c:19-31 | the scan decides emptiness |
| `FixedBasicAlloc.FixedBasicAllocator.AllocChunk` | kallok/fixed_basic.c:47-84 | the two scans and the header write do what the specification says |
| `FixedBasicAlloc.FixedBasicAllocator.FreePointer` | kallok/fixed_basic.c:33-45 | gives back or ignores a pointer as the specification says |
| `FixedBasicAlloc.FixedBasicAllocator.ReallocChunk` | kallok/fixed_basic.c:86-93 | allocates, copies the bytes in the shared buffer, gives the old chunk back |
| `MultiAlloc.Routes` | kallok/multi.c:10-15 | the tag leads every held block back to its allocator, at its address there and with its size |
| `MultiAlloc.AllocKeeps` | kallok/multi.c:18-33 | the composition meets the contract it relies on; it succeeds exactly when one of the two has a block: the first one's if it has one, tagged 0, else the second one's, tagged 1, and only that allocator gains it |
| `MultiAlloc.FreeKeeps` | kallok/multi.c:7-16 | the block goes to the allocator it came from, one byte lower and longer; the other allocator is not touched |
| `MultiAlloc.ReallocKeeps` | kallok/multi.c:35-46 | growing keeps the bytes and gets its block in the same order under the same condition; a failed resize gives the block up and keeps the others |
| `MultiAlloc.InsideKeeps` | kallok/multi.c:43-43 | writes inside a held block reach no tag byte and no other block |
| `MultiAlloc.RunKeeps` | kallok/multi.c:7-46 | over every run: the invariant, and size and bytes of any block the run does not mention |
| `MultiAlloc.EventMeans` | kallok/multi.c:7-46 | what each operation of a run does to the two allocators, the tags and the held blocks |
| `MultiAlloc.RunPush` | kallok/multi.c:7-46 | the last event of a run happens to what the run before it has left |
| `MultiAlloc.RunSafe` | kallok/multi.c:7-46 | from fresh allocators: held blocks pairwise apart and every tag naming the right allocator |
| `MultiAlloc.MultiAllocator.AllocAlloc` | kallok/multi.c:18-33 | asks the first, then the second, and writes the tag; fails exactly when neither has a block |
| `MultiAlloc.MultiAllocator.AllocFree` | kallok/multi.c:7-16 | reads the tag and gives the block back there |
| `MultiAlloc.MultiAllocator.AllocRealloc` | kallok/multi.c:35-46 | allocates, copies and frees, or frees alone exactly when neither has a block |
| `LinkedList.Join` | linked_list/addAll.c:14-17 | linking the ends of two chains makes one chain in both directions |
| `LinkedList.Hook` | linked_list/insert.c:14-22 | the `next` chain gains the node; the `prev` chain does exactly at the end |
| `LinkedList.Unlink` | linked_list/removeMultiple.c:4-18 | closing the chain over a range leaves both chains of the rest mirrored |
| `LinkedList.CopyChain` | linked_list/fromFixed.c:14-25 | one linked node for each element, in order |
| `LinkedList.DoubleLinkedList.CopyFromFixed` | linked_list/fromFixed.c:10-27 | the list holds the elements of the strided array |
| `LinkedList.DoubleLinkedList.AddAllClearOld` | linked_list/addAll.c:9-26 | appends all nodes and leaves the source an empty, well formed list; the receiver is well formed exactly when it was not empty or nothing was appended |
| `LinkedList.DoubleLinkedList.AddAllFrontClearOld` | linked_list/addAll.c:34-50 | puts all nodes in front and leaves the source an empty, well formed list |
| `LinkedList.DoubleLinkedList.AddFront` | linked_list/add.c:7-16 | puts one element in front |
| `LinkedList.DoubleLinkedList.Add` | linked_list/add.c:3-5 | appends one element |
| `LinkedList.DoubleLinkedList.InsertAfter` | linked_list/insert.c:5-28 | inserts after any node; the list stays well formed exactly at the front and at the end |
| `LinkedList.DoubleLinkedList.Remove` | linked_list/remove.c:3-22 | takes one node out and frees it |
| `LinkedList.DoubleLinkedList.RemoveMultiple` | linked_list/removeMultiple.c:3-29 | takes a range out and frees each node once |
| `LinkedList.DoubleLinkedList.Clear` | linked_list/clear.c:3-13 | frees every node once and leaves an empty list |
| `LinkedList.DoubleLinkedList.LinkAt` | linked_list/linkAt.c:4-30 | the node at the index from either end, null past the last |
| `LinkedList.DoubleLinkedList.Find` | linked_list/find.c:5-27 | the least matching index and its node, or not found |
| `LinkedList.DoubleLinkedList.FindLast` | linked_list/findLast.c:5-27 | the greatest matching index and its node, or not found |
| `LinkedList.DoubleLinkedList.FlattenInto` | linked_list/flatten.c:7-15 | appends all elements to a dynamic list, in order |
| `LinkedList.CopyThenFlatten` | linked_list/flatten.c:7-15 | a strided array copied into a list and flattened is appended element by element |
| `LinkedListRuns.ExecuteOn` | linked_list/anylist_impl.c:28-58 | one operation on one list: its contents change as the sequence does, its nodes are its own or new, and the allocator keeps everything else |
| `LinkedListRuns.ExecuteSplice` | linked_list/addAll.c:9-50 | a splice between two of several lists keeps all of them well formed and apart |
| `LinkedListRuns.Execute` | linked_list/anylist_impl.c:28-91 | any operation keeps all lists well formed and apart, loses no node and frees none that a list still has; position by position what it does to the elements |
| `LinkedListRuns.StepIff` | linked_list/anylist_impl.c:28-91 | the contents after an operation are the only ones that agree, position by position, with what it inserts, moves or takes out |
| `LinkedListRuns.RunPush` | linked_list/anylist_impl.c:28-91 | the last operation of a run happens to what the run before it has left |
| `LinkedListRuns.ExecuteAll` | linked_list/addAll.c:9-50 | every run of insertions at both ends, splices, removals, range removals and clears refines plain sequences, with no sharing between lists and no leak |
| `LinkedListRuns.FamilyMeans` | linked_list/linked_list.h:37-44 | what that invariant says of each list: well formed, with the sequence's contents, no node in two lists |
| `LinkedListRuns.RunFromEmpty` | linked_list/addAll.c:9-50 | the same for lists that start empty |
| `Bits.RoundUpBy4` | dynamic_list/reserve_and_shrink.c:17-17 | `(n + 3) & ~3` on a 64-bit word is the least multiple of 4 at or above `n` |
| `DynamicListSpec.StepTight` | dynamic_list/impl_utils.h:7-26 | every operation but the two reservations keeps the waste bound |
| `DynamicListSpec.StepIff` | dynamic_list/impl_utils.h:7-40 | the state after an operation is the only one with the right elements at every position and the right capacity: enough, else the least multiple of four; the length once 64 bytes are unused |
| `DynamicListSpec.RunPush` | dynamic_list/impl_utils.h:7-40 | the last operation of a run happens to what the run before it has left |
| `DynamicListSpec.WasteBounded` | dynamic_list/impl_utils.h:7-26 | from capacity zero, no run of additions, updates, removals and shrinks wastes more than the larger of 63 bytes and three elements |
| `SlotBuffer.WriteSlot` | dynamic_list/add_and_addAll.c:56-65 | writing a slot's bytes changes that element and no other |
| `SlotBuffer.RepresentsIff` | dynamic_list/add_and_addAll.c:29-33 | the block holds the list exactly when it has room for the capacity and each written element lies at its index times the stride |
| `SlotBuffer.Reallocated` | dynamic_list/reserve_and_shrink.c:19-24 | a block that keeps the common bytes still holds all elements |
| `SlotBuffer.ShiftedDown` | dynamic_list/removeAt_and_removeRange.c:26-37 | the left shift closes the gap and keeps the other elements in order |
| `SlotBuffer.ScatteredSlots` | dynamic_list/add_and_addAll.c:82-93 | the strided copy into the new slots holds the source elements |
| `DynamicList.DynamicList.Reserve` | dynamic_list/reserve_and_shrink.c:11-27 | enough capacity stays, else the least multiple of four that is enough; the old size passed on is the block's size; elements kept |
| `DynamicList.DynamicList.ReserveExact` | dynamic_list/reserve_and_shrink.c:35-49 | exact capacity, elements kept |
| `DynamicList.DynamicList.Shrink` | dynamic_list/reserve_and_shrink.c:56-67 | capacity becomes length, elements kept |
| `DynamicList.DynamicList.ResizeRel` | dynamic_list/impl_utils.h:15-40 | growth adds unspecified slots; shrinking cuts slots off and gives memory back |
| `DynamicList.DynamicList.PostRemove` | dynamic_list/impl_utils.h:7-13 | gives memory back from 64 unused bytes on |
| `DynamicList.DynamicList.Add` | dynamic_list/add_and_addAll.c:10-33 | the old elements, then the new one, whose bytes are in the last slot |
| `DynamicList.DynamicList.Set` | dynamic_list/add_and_addAll.c:39-65 | the bytes of the slot are the new ones in every case; an element is replaced, or the list grows and leaves the gap unspecified |
| `DynamicList.DynamicList.AddAll` | dynamic_list/add_and_addAll.c:71-93 | the old elements, then those of a strided array |
| `DynamicList.DynamicList.RemoveAt` | dynamic_list/removeAt_and_removeRange.c:9-19 | one element is gone and the later ones move down; memory is given back from 64 unused bytes on |
| `DynamicList.DynamicList.RemoveRange` | dynamic_list/removeAt_and_removeRange.c:26-38 | a range is gone and the later elements move down; memory is given back from 64 unused bytes on |
| `DynamicList.DynamicList.ExecuteAll` | dynamic_list/add_and_addAll.c:10-93 | every run of operations does to the bytes what it does to a plain sequence, operation by operation as `DynamicListSpec.StepIff` says |
| `DynamicList.RunFromEmpty` | dynamic_list/impl_utils.h:7-26 | the waste bound for the real block, after any such run |
| `StridedCopy.StridedMemcpy` | memlib.c:55-99 | which of the copies is taken, and what it leaves in the target |
| `StridedCopy.StridedMemcpySameStride` | memlib.c:13-53 | the masked loop copies the bytes its 128-byte mask selects |
| `StridedCopy.CopyElementsExact` | memlib.c:80-97 | every element is copied and every gap and outside byte is unchanged |
| `StridedCopy.ScatterGatherIdentity` | memlib.c:77-97 | scattering to a stride and gathering back is the identity |
| `StridedCopy.ContiguousIsBlock` | memlib.c:85-87 | without gaps, the single block copy is the element copy |
| `StridedCopy.MaskedExactIff` | memlib.c:36-52 | the masked loop is the element copy, for all buffers, exactly when the stride is 128 or there is at most one element |
| `Fnv1a.DigestBuffer` | kash/fnv1a.c:7-15 | the loop of the buffer form folds the rounds over the bytes |
| `Fnv1a.DigestString` | kash/fnv1a.c:17-25 | the loop of the string form stops at the first NUL |
| `Fnv1a.HashGrows` | kash/fnv1a.c:7-47 | empty text hashes to the offset; a further byte is xored in and the outcome multiplied by the prime; 16 bits are the two halves xored |
| `Fnv1a.OffsetsAreSigned` | kash/fnv1a.c:39-40 | both offsets are the FNV-0 hashes of the signature text, which fixes offsets and primes |
| `Fnv1a.FormsAgree` | kash/fnv1a.c:7-53 | both forms of all three hashes agree on every NUL-free string, whatever follows it |
| `Fnv1a.Round32Undone` | kash/fnv1a.c:11-12 | a 32-bit round can be undone: the prime has the inverse 0x359C449B |
| `Fnv1a.DigestBijective` | kash/fnv1a.c:9-13 | hashing a fixed string is a bijection of the starting state |
| `Fnv1a.OneByteChangesHash` | kash/fnv1a.c:39-40 | strings of equal length that differ in one byte have different 32-bit and 64-bit hashes |
| `Fnv1a.Collision` | kash/fnv1a.c:43-47 | for every length from two on, two strings that differ in their last byte only and share their 16-bit hash |
| `Fnv1a.FoldSeparatesIff` | kash/fnv1a.c:43-47 | for every length: strings that differ in one byte always have different 16-bit hashes exactly when the length is at most one |

## Left out

- CurlyExpansion: allocation is assumed to succeed, and the arrays of entries are values; that the code never frees those of the inner lists (niglob/niglob.c:146-162) is not modelled.
- niglob/niglob.c:255-659: directory walking, home directories, drives and path plumbing.
- NumberText.LlToAscii: does not model the least `long long`, whose negation overflows (minifmt.c:89).
- NumberText.AsciiToLl: overflow is reported as a flag instead of being undefined.
- Template: double placeholders and the codec of doubles (minifmt.c:62-82, 115-143), which need floating point; growing the result by reallocation is sequence concatenation.
- Config.ConfigChildren: does not say what the found flag is for a missing path, because `config_child` never clears it and the code reads it uninitialised (miniconf.c:32-34, 82-84).
- Config.ConfigChild: models lines that are long enough to cut four columns off as often as they are indented; on others the code reads past their end (miniconf.c:48, miniconf.h:41).
- miniconf.c:115-211: typed values.
- FastAlloc: stops at the first release of everything; `freeall` does not reset the chunk (kallok/fastalloc.c:7-15), so reuse after it is not modelled. Request sizes are positive and the allocation counter does not wrap.
- FixedBasicAlloc.AllocKeeps: models requests of one chunk; blocks of several chunks do not keep the headers of their inner chunks up to date (kallok/fixed_basic.c:38-42, 67-72).
- MultiAlloc.ReallocKeeps: models sizes that do not shrink, because the code copies the old size (kallok/multi.c:43).
- MultiAlloc: the two allocators are inputs that obey the contract; their memory is told apart by address.
- kallok/basic.c, paged.c, pages.c, virtual.c, libc.c, single_fixed.c, statistic.c: OS pages, libc, and small members.
- LinkedList: the payload is a field of the node instead of bytes behind it (linked_list/linked_list.h:15-17), and a fresh node has a null `next`, which linked_list/fromFixed.c:15-26 leaves unset for the last node.
- LinkedList.DoubleLinkedList.RemoveMultiple: the loop reads the successor of a node it has just freed (linked_list/removeMultiple.c:20-26); a freed node keeps its fields here.
- linked_list/fromLinks.c: the loop depends on the order of raw pointers and leaves the end unset; the copying appends rest on it.
- DynamicList.DynamicList.Set: writing right behind the last element needs spare capacity and is not counted as an element, as in the code (dynamic_list/add_and_addAll.c:41-46).
- DynamicList.DynamicList.Reallocate: always succeeds.
- dynamic_list/insertAt_and_insertAllAt.c: adds the length twice, so it is no sequence insertion; dynamic_list/init_and_clear.c:31-38 frees with a capacity instead of a size.
- StridedCopy.StridedMemcpy: the two buffers are different arrays, and the masked branch is modelled only up to a stride of 128, past which the code declares itself unreachable (memlib.c:19-21).
- kash/pearson.c, kash/sbox.c: a result that is never stored, and a table.
- filelib, tcp, process, thread, directory, command line and build code: I/O and wrappers.
