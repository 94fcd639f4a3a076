# APTS_Tulks: a verified model of the dictionary translator

APTS_Tulks is a small word-for-word translator.
It reads pairs of words (a word and its translation) until it meets a direction marker.
A marker beginning with `-` translates forward. A marker beginning with `<` translates backward.
It then replaces every following word by its translation, or prefixes `?` to a word it does not know.
The words are stored in `Map`, a separate-chaining hash table from C strings of at most 20 bytes to C strings of at most 20 bytes, built on four hand-written string helpers.

The project models these parts:

- `cstrings.dfy` (module `CStrings`): the helpers `strlen`, `strcmp`, `strncpy` and `memset`, over NUL-terminated byte buffers.
- `hashing.dfy` (module `Hashing`): the djb2-style hash `hash`, with its 64-bit `size_t` wrap-around written out.
- `chains.dfy` (module `Chains`): nodes, chains, lookup within a chain, and `Scatter`, the bucket move that `resize` performs.
- `dictionary.dfy` (module `Dictionary`): the table as a value. `Resize`, `Put`, `Get`, `Build` (a run of puts) and `Invert` are functions. They serve as the specification of the class.
- `dictionary_props.dfy` (module `DictionaryProps`): what `put`, `get` and `invert` promise, stated over those functions.
- `hashmap.dfy` (module `HashTable`): the `Map` class itself. It has a `buckets` array of chains and the `size` and `capacity` fields. The constructor, `Resize`, `Put` and `Invert` are proved to move the abstract state exactly as the matching `Dictionary` function does. `Get` changes nothing and answers as `Dictionary.Get`. `SetBuckets` installs a copy of the given chains, size and capacity.
- `driver.dfy` (module `Driver`): the definition, direction and substitution logic of `main` as a pure function `Run` over the sequence of input tokens.
- `scenarios.dfy` (module `Scenarios`): concrete runs of the driver.
- `rehash.dfy` (module `Rehash`): the `resize` defect (see "## Findings") and a corrected resize with its proofs.

Representation choices:

- A byte is an `int` in 0..255, the bit pattern of a C `char`.
- `char` is taken to be signed, as with the usual x86 compilers. So `CStrings.CharValue` maps a byte of 128 or more to that value minus 256. Both `hash` (which adds `key[i]`) and the ordering of `strcmp` use that signed value.
- A C string buffer is a `seq<Byte>`, and `CStr` is its content before the first NUL.
- Node buffers are the fixed 21-byte arrays `key[MAX_CSTRING_SIZE]` and `value[MAX_CSTRING_SIZE]`.
- A chain of `next` pointers is a `seq<Node>`, kept in list order.
- `size_t` arithmetic is taken modulo 2^64.

Behaviour of the code that a reader might not expect:

- `LOAD_FACTOR` is 1 and `DEFAULT_CAPACITY` is 50001. A table grows, doubling its capacity, when `size >= capacity` at the start of a `put`.
- `put` of a key that is already present appends a second node to the chain, and `get` returns the first node with that key. So the first definition of a word wins.
- The input `cat kaķis dog suns --> kaķis dog` outputs `?kaķis suns`. The token `kaķis` was defined only as a value, never as a key (`Scenarios.ForwardScenario`).

## Model

| member | source | states |
|---|---|---|
| CStrings.CharValue | APTS_Tulks/APTS_Tulks.cpp:76 | a byte read as a signed `char` lies in -128..127 and has the same bit pattern modulo 256 |
| CStrings.CLen | APTS_Tulks/APTS_Tulks.cpp:8-15 | the length is the index of the first NUL: no NUL before it, a NUL at it when one exists |
| CStrings.CStr | APTS_Tulks/APTS_Tulks.cpp:8-15 | a buffer's string is a NUL-free prefix of it, followed by the NUL when the buffer is terminated |
| CStrings.Pad | APTS_Tulks/APTS_Tulks.cpp:59-61 | a string of at most 20 bytes fills a 21-byte node buffer that is terminated and holds exactly that string |
| CStrings.Strlen | APTS_Tulks/APTS_Tulks.cpp:8-15 | `strlen` returns the index of the first NUL: the byte there is NUL and none before it is, so it is the string's length |
| CStrings.Compare | APTS_Tulks/APTS_Tulks.cpp:17-26 | the comparison result is always -1, 0 or 1 |
| CStrings.CompareZeroIff | APTS_Tulks/APTS_Tulks.cpp:17-26 | the comparison is 0 exactly when the two strings are equal, in both directions |
| CStrings.CompareAntisymmetric | APTS_Tulks/APTS_Tulks.cpp:17-26 | swapping the arguments negates the result |
| CStrings.CompareSkipsCommonPrefix | APTS_Tulks/APTS_Tulks.cpp:18-21 | a common prefix does not affect the result |
| CStrings.CompareAtFirstDifference | APTS_Tulks/APTS_Tulks.cpp:22-25 | at the first differing byte the result is -1 or 1, ordered by the signed `char` values |
| CStrings.ComparePrefixIsLess | APTS_Tulks/APTS_Tulks.cpp:22-25 | a proper prefix compares less than the longer string, and the longer one compares greater |
| CStrings.Strcmp | APTS_Tulks/APTS_Tulks.cpp:17-26 | `strcmp` on two terminated buffers returns the comparison of their strings, and so has every property above |
| CStrings.Padded | APTS_Tulks/APTS_Tulks.cpp:36-54 | `strncpy` writes exactly n cells |
| CStrings.StrncpyKeepsString | APTS_Tulks/APTS_Tulks.cpp:39-53 | when the source string is shorter than n, the copy is terminated, holds the same string, and every cell after it is NUL |
| CStrings.StrncpyTruncates | APTS_Tulks/APTS_Tulks.cpp:39-47 | when the source has n or more bytes before its NUL, the copy is its first n bytes and is left without a terminator |
| CStrings.PaddedIsPad | APTS_Tulks/APTS_Tulks.cpp:36-54 | copying a buffer of at most 20 bytes into 21 cells yields the padded node buffer of its string |
| CStrings.Strncpy | APTS_Tulks/APTS_Tulks.cpp:36-54 | the array method writes the copy into the first n cells of `dest` and changes nothing beyond them |
| CStrings.Memset | APTS_Tulks/APTS_Tulks.cpp:28-34 | the first `num` cells hold `value` truncated to a byte, and the other cells are unchanged |
| Hashing.Running | APTS_Tulks/APTS_Tulks.cpp:73-77 | the running hash always fits in a 64-bit `size_t` |
| Hashing.Hash | APTS_Tulks/APTS_Tulks.cpp:72-80 | the hash always fits in a 64-bit `size_t` |
| Hashing.RunningIsExactModWord | APTS_Tulks/APTS_Tulks.cpp:73-77 | wrapping to 64 bits at every step gives the same result as computing `h*33 + c` without bound and wrapping once at the end |
| Hashing.HashIsExactModWord | APTS_Tulks/APTS_Tulks.cpp:72-80 | the hash is the exact value plus the length, taken modulo 2^64 |
| Hashing.ComputeHash | APTS_Tulks/APTS_Tulks.cpp:72-80 | the loop over the key's bytes, with `h*33 + c` wrapped each step, returns the hash of the key's string |
| Chains.MakeNode | APTS_Tulks/APTS_Tulks.cpp:167-173 | a new node holds the key and value in 21-byte terminated buffers and caches the key's hash |
| Chains.FirstMatch | APTS_Tulks/APTS_Tulks.cpp:197-205 | the index of the first node with the key: no node before it has the key |
| Chains.Find | APTS_Tulks/APTS_Tulks.cpp:197-206 | lookup in a chain fails exactly when no node has the key, and otherwise returns the value of the first node with that key |
| Chains.FindAppend | APTS_Tulks/APTS_Tulks.cpp:197-206 | in a concatenated chain, a key found in the first part hides every later node with that key |
| Chains.FirstKeyForFinds | APTS_Tulks/APTS_Tulks.cpp:209-225 | a search by value fails exactly when no node holds that value, and otherwise returns the key of a node holding it |
| Chains.Scatter | APTS_Tulks/APTS_Tulks.cpp:90-96 | moving the chains by their heads yields exactly `newCapacity` slots |
| Chains.ScatterSlot | APTS_Tulks/APTS_Tulks.cpp:90-96 | a new slot is empty exactly when no old head lands there, and otherwise holds the last old chain whose head lands there |
| Chains.ScatterChainsAreOld | APTS_Tulks/APTS_Tulks.cpp:90-96 | every new slot is empty or holds one whole old chain |
| Chains.ScatterHeadsPlaced | APTS_Tulks/APTS_Tulks.cpp:93-94 | the head of every new slot belongs there by its hash |
| Chains.ScatterKeepsEveryNode | APTS_Tulks/APTS_Tulks.cpp:83-101 | when capacity doubles and every old head sits in its own slot, no two heads collide, so the node count is unchanged |
| Chains.FlattenUpdateMultiset | APTS_Tulks/APTS_Tulks.cpp:94 | replacing one slot's chain removes exactly that chain's nodes and adds exactly the new chain's, leaving every other node in place |
| Chains.ScatterKeepsNodeCounts | APTS_Tulks/APTS_Tulks.cpp:83-101 | under the same condition the new array holds exactly the old nodes, each as often as before |
| Chains.ScatterKeepsChain | APTS_Tulks/APTS_Tulks.cpp:90-96 | under the same condition each old chain reappears whole at its head's new slot |
| Chains.ScatterKeepsMember | APTS_Tulks/APTS_Tulks.cpp:90-96 | under the same condition every stored node is still stored after resizing |
| Dictionary.Get | APTS_Tulks/APTS_Tulks.cpp:193-207 | `get(k)` is null exactly when no node of chain `hash(k) % capacity` has key k. Otherwise it is the value of the first node of that chain with key k |
| Dictionary.Empty | APTS_Tulks/APTS_Tulks.cpp:139-142 | a new map has 50001 empty slots and size 0, and every lookup fails |
| Dictionary.Resize | APTS_Tulks/APTS_Tulks.cpp:83-101 | the table is unchanged while `size < capacity`. Otherwise capacity doubles exactly, size is unchanged, and afterwards `size < capacity` |
| Dictionary.Append | APTS_Tulks/APTS_Tulks.cpp:163-190 | the append step of `put` adds one to size and keeps capacity |
| Dictionary.Put | APTS_Tulks/APTS_Tulks.cpp:158-191 | `put` adds exactly one to size, even for a key already present, and doubles capacity exactly when the table was full |
| Dictionary.Build | APTS_Tulks/APTS_Tulks.cpp:244-252 | a run of puts from an empty map has size equal to the number of pairs, and keeps capacity 50001 for up to 50001 pairs |
| Dictionary.BuildSwappedAppend | APTS_Tulks/APTS_Tulks.cpp:212-220 | putting the swapped pairs of one more chain continues the same run of puts |
| Dictionary.Invert | APTS_Tulks/APTS_Tulks.cpp:209-225 | the inverted map has the same size as the original |
| DictionaryProps.PutAppendsAtTail | APTS_Tulks/APTS_Tulks.cpp:158-191 | after `resize`, `put` appends `MakeNode(k, v)` at the tail of chain `hash(k) % capacity`, leaves every other chain unchanged, and adds one to size |
| DictionaryProps.PutThenGet | APTS_Tulks/APTS_Tulks.cpp:158-207 | after `put(k, v)`, `get(k)` is never null: it is the earlier value for k if one was reachable, else v. Every other key's lookup is that of the resized table |
| DictionaryProps.PutThenGetNoResize | APTS_Tulks/APTS_Tulks.cpp:158-207 | below the load factor, `put(k, v)` leaves every other key's lookup unchanged, and k then yields its first value |
| DictionaryProps.GetSound | APTS_Tulks/APTS_Tulks.cpp:193-207 | a value `get` returns belongs to a stored node with that key |
| DictionaryProps.AssocFirstSnoc | APTS_Tulks/APTS_Tulks.cpp:179-188 | in a list of definitions, the first one for a key wins over any later one |
| DictionaryProps.BuildLookup | APTS_Tulks/APTS_Tulks.cpp:158-207 | after putting up to 50001 pairs, `get(k)` returns the value of the first pair with key k, and null when there is none |
| DictionaryProps.BuildNodes | APTS_Tulks/APTS_Tulks.cpp:158-191 | every node in a built table was made from one of the pairs put |
| DictionaryProps.MadeNodeIsPair | APTS_Tulks/APTS_Tulks.cpp:167-173 | a node that `put` creates carries the key and value of one of the pairs put |
| DictionaryProps.PutKeepsNode | APTS_Tulks/APTS_Tulks.cpp:158-191 | a node stored before `put` is still stored somewhere after it, possibly in a slot its hash no longer selects, and so is the new node |
| DictionaryProps.ResizeKeepsEveryNode | APTS_Tulks/APTS_Tulks.cpp:83-101 | `resize` keeps every stored node, each as often as it was stored, though a node may end up in a chain its hash no longer selects |
| DictionaryProps.PutAddsOneNode | APTS_Tulks/APTS_Tulks.cpp:158-191 | `put(k, v)` stores exactly one new node, `MakeNode(k, v)`, and keeps every node already stored, resize included |
| DictionaryProps.BuildStoresEveryPut | APTS_Tulks/APTS_Tulks.cpp:158-191 | after any run of puts, the table stores exactly the nodes made for the pairs, each as many times as it was put |
| DictionaryProps.BuildKeepsEveryPair | APTS_Tulks/APTS_Tulks.cpp:158-191 | the node of every pair put is stored in some chain, for any number of pairs |
| DictionaryProps.AssocFirstSwapped | APTS_Tulks/APTS_Tulks.cpp:212-220 | the first swapped pair for a value gives the key of the first node holding that value |
| DictionaryProps.InvertLookup | APTS_Tulks/APTS_Tulks.cpp:209-225 | for a map of at most 50001 entries, looking up v in the inverted map returns the key of the first node, in slot and chain order, whose value is v |
| DictionaryProps.BuildGetSound | APTS_Tulks/APTS_Tulks.cpp:193-207 | whatever `get` returns from a built table comes from one of the pairs put |
| DictionaryProps.InvertFindsOnlyValues | APTS_Tulks/APTS_Tulks.cpp:209-225 | whatever the inverted map returns for v is the key of a stored node whose value is v |
| DictionaryProps.StoredNodeIsPair | APTS_Tulks/APTS_Tulks.cpp:158-191 | every node stored after a run of puts carries the key and value of one of the pairs put |
| DictionaryProps.AssocFirstDefined | APTS_Tulks/APTS_Tulks.cpp:193-207 | a lookup in a list of definitions answers only for a key that some pair defines |
| DictionaryProps.AssocFirstDistinct | APTS_Tulks/APTS_Tulks.cpp:193-207 | when no key is defined twice, the lookup of each pair's key gives that pair's value |
| DictionaryProps.InvertKeepsPair | APTS_Tulks/APTS_Tulks.cpp:209-225 | after `invert`, the map stores the node (v, k) for every pair (k, v) that was put |
| DictionaryProps.InvertedNodeIsPair | APTS_Tulks/APTS_Tulks.cpp:209-225 | every node of the inverted map is some pair put, with key and value swapped |
| DictionaryProps.InvertTwiceRestores | APTS_Tulks/APTS_Tulks.cpp:158-225 | for at most 50001 pairs with no key put twice, inverting twice gives back every definition: `get(k)` on the twice-inverted map equals the first value defined for k, and is null for an undefined k. Repeated values are allowed |
| DictionaryProps.BuildCapacity | APTS_Tulks/APTS_Tulks.cpp:83-101 | after n puts the capacity is the smallest 50001·2^k that is at least n |
| HashTable.NewNode | APTS_Tulks/APTS_Tulks.cpp:167-173 | the node built by two `strncpy` calls holds both strings padded to 21 bytes, and is the model node when given the key's hash |
| HashTable.CopyChain | APTS_Tulks/APTS_Tulks.cpp:115-131 | the copy of a chain is node for node equal to it: same order, key, value and `hashValue` |
| HashTable.Scan | APTS_Tulks/APTS_Tulks.cpp:197-206 | scanning a chain with `strcmp` returns the value of the first node with the key, or null when there is none |
| HashTable.Map.constructor | APTS_Tulks/APTS_Tulks.cpp:139-142 | the new map is the empty table |
| HashTable.Map.Resize | APTS_Tulks/APTS_Tulks.cpp:83-101 | the object's state moves exactly as `Dictionary.Resize` |
| HashTable.Map.Put | APTS_Tulks/APTS_Tulks.cpp:158-191 | the object's state moves exactly as `Dictionary.Put` |
| HashTable.Map.AppendNode | APTS_Tulks/APTS_Tulks.cpp:163-190 | linking the new node after the last node of its slot's chain, or as the head of an empty slot, moves the state as `Dictionary.Append`, in the same array |
| HashTable.Map.Get | APTS_Tulks/APTS_Tulks.cpp:193-207 | `get` changes nothing and returns what `Dictionary.Get` returns on the current state |
| HashTable.Map.SetBuckets | APTS_Tulks/APTS_Tulks.cpp:104-136 | the map's state becomes a copy of the given buckets with the given size and capacity, in a fresh array |
| HashTable.Map.PutInverted | APTS_Tulks/APTS_Tulks.cpp:214-219 | putting (value, key) for each node of a chain moves the state as `Dictionary.PutSwapped` |
| HashTable.Map.Inverted | APTS_Tulks/APTS_Tulks.cpp:210-220 | the fresh map built by the traversal holds `Dictionary.Invert` of this map's state |
| HashTable.Map.Invert | APTS_Tulks/APTS_Tulks.cpp:209-225 | after `invert`, the object's state is `Dictionary.Invert` of its old state |
| Driver.Definitions | APTS_Tulks/APTS_Tulks.cpp:244-252 | the definition phase ends at the first key-position token starting with `-` or `<`, and at no earlier one |
| Driver.Pairs | APTS_Tulks/APTS_Tulks.cpp:244-252 | the pairs put are exactly the (key, value) token pairs before the marker |
| Driver.Loaded | APTS_Tulks/APTS_Tulks.cpp:241-259 | the table after the definition phase has size d, one entry per pair put |
| Driver.Translate | APTS_Tulks/APTS_Tulks.cpp:263-271 | substitution emits one word per input word |
| Driver.TranslateAt | APTS_Tulks/APTS_Tulks.cpp:263-271 | each output word is the found translation, or `?` followed by the word |
| Driver.Run | APTS_Tulks/APTS_Tulks.cpp:241-271 | a run produces output exactly when a marker is found, with one word per token after the marker |
| Driver.Output | APTS_Tulks/APTS_Tulks.cpp:263-271 | substitution emits one word per token after the marker |
| Driver.OutputAt | APTS_Tulks/APTS_Tulks.cpp:263-271 | the i-th output word is `get` of the i-th token on the loaded table, or `?` followed by the token |
| Driver.RunAt | APTS_Tulks/APTS_Tulks.cpp:241-271 | the i-th output word of a run is the lookup of the i-th token after the marker |
| Driver.RunAtForward | APTS_Tulks/APTS_Tulks.cpp:244-271 | after a `-` marker each word is looked up in the built map, with no inversion |
| Driver.RunAtReverse | APTS_Tulks/APTS_Tulks.cpp:244-271 | after a `<` marker each word is looked up in the inverted map |
| Driver.RunForward | APTS_Tulks/APTS_Tulks.cpp:244-271 | forward, each word becomes the translation given by its first definition, or `?` followed by the word |
| Driver.RunForwardSound | APTS_Tulks/APTS_Tulks.cpp:244-271 | forward, each output word is `?` followed by the word, or a translation defined for that word in the input |
| Driver.ForwardAnswerSound | APTS_Tulks/APTS_Tulks.cpp:263-271 | the forward answer is unknown-marked or comes from one of the definitions |
| Driver.RunReverse | APTS_Tulks/APTS_Tulks.cpp:257-271 | backward, each word becomes the key of the first stored node, in slot and chain order, whose value is that word |
| Driver.RunReverseSound | APTS_Tulks/APTS_Tulks.cpp:257-271 | backward, each output word is `?` followed by the word, or a key the input defined with that word as its value |
| Driver.ReverseAnswerSound | APTS_Tulks/APTS_Tulks.cpp:257-271 | the backward answer is unknown-marked or a key defined with that value |
| Driver.RunReverseComplete | APTS_Tulks/APTS_Tulks.cpp:257-271 | backward, a word that some definition gave as a value is always translated, to a key defined with that value |
| Driver.ReverseAnswerComplete | APTS_Tulks/APTS_Tulks.cpp:209-225 | for at most 50001 pairs, inverting the built map finds every value that was put, and answers with a key defined with that value |
| Scenarios.TwoDefinitions | APTS_Tulks/APTS_Tulks.cpp:244-252 | with two pairs and then a marker, the definition phase stops at the marker with exactly those two pairs |
| Scenarios.ForwardTwo | APTS_Tulks/APTS_Tulks.cpp:241-271 | after two definitions and `-`, the two output words are the forward answers |
| Scenarios.ReverseTwo | APTS_Tulks/APTS_Tulks.cpp:241-271 | after two definitions with different values and `<`, the two output words are the backward answers |
| Scenarios.ForwardScenario | APTS_Tulks/APTS_Tulks.cpp:241-271 | `cat kaķis dog suns --> kaķis dog` outputs `?kaķis suns` |
| Scenarios.UnknownScenario | APTS_Tulks/APTS_Tulks.cpp:241-271 | `cat kaķis dog suns --> bird cat` outputs `?bird kaķis` |
| Scenarios.ReverseScenarioUnknown | APTS_Tulks/APTS_Tulks.cpp:241-271 | `cat kaķis dog suns <-- cat dog` outputs `?cat ?dog` |
| Scenarios.ReverseScenarioKnown | APTS_Tulks/APTS_Tulks.cpp:241-271 | `cat kaķis dog suns <-- suns kaķis` outputs `dog cat` |
| Rehash.HashOfAAA | APTS_Tulks/APTS_Tulks.cpp:72-80 | `hash("AAA")` is 193449995 |
| Rehash.HashOfNG | APTS_Tulks/APTS_Tulks.cpp:72-80 | `hash("n_G")` is 193499996 |
| Rehash.CollidingHashes | APTS_Tulks/APTS_Tulks.cpp:93 | both keys share slot 46127 at capacity 50001, but at capacity 100002 they go to slots 46127 and 96128 |
| Rehash.ResizeStrandsKey | APTS_Tulks/APTS_Tulks.cpp:90-96 | a key found only behind a head that moves to another slot is found before `resize` and lost after it |
| Rehash.CollidingGet | APTS_Tulks/APTS_Tulks.cpp:193-207 | after the 50001 colliding puts, `get("n_G")` returns "2" |
| Rehash.CollidingResize | APTS_Tulks/APTS_Tulks.cpp:83-101 | after the resize that follows, `get("n_G")` returns null |
| Rehash.ResizeLosesKey | APTS_Tulks/APTS_Tulks.cpp:158-207 | "n_G" was defined as "2" and is found, but after one more put `get("n_G")` returns null |
| Rehash.ReinsertPlaced | APTS_Tulks/APTS_Tulks.cpp:90-96 | rehashing node by node puts every node in the slot of its own hash |
| Rehash.ReinsertKeepsNodes | APTS_Tulks/APTS_Tulks.cpp:90-96 | rehashing node by node keeps the node count, and every new slot holds only old nodes |
| Rehash.ReinsertFind | APTS_Tulks/APTS_Tulks.cpp:90-96 | after rehashing node by node, lookup in a key's slot equals lookup in the old traversal |
| Rehash.FlattenFind | APTS_Tulks/APTS_Tulks.cpp:193-207 | in a table where every node sits in its hash slot, lookup in the key's slot equals lookup across all chains |
| Rehash.FixedResize | APTS_Tulks/APTS_Tulks.cpp:83-101 | the corrected resize keeps every node in its hash slot, with the same doubling rule and size |
| Rehash.FixedResizeKeepsGet | APTS_Tulks/APTS_Tulks.cpp:83-101 | the corrected resize changes no lookup |
| Rehash.FixedPut | APTS_Tulks/APTS_Tulks.cpp:158-191 | `put` with the corrected resize keeps every node placed, adds one to size, and grows as before |
| Rehash.FixedPutThenGet | APTS_Tulks/APTS_Tulks.cpp:158-207 | with the corrected resize, `put(k, v)` leaves every other key's lookup unchanged, and k yields its first value |
| Rehash.FixedBuild | APTS_Tulks/APTS_Tulks.cpp:158-191 | corrected puts from an empty map keep every node placed, with one node per pair |
| Rehash.FixedBuildLookup | APTS_Tulks/APTS_Tulks.cpp:158-207 | for any number of pairs, corrected `get(k)` returns the first definition of k, and null when there is none |
| Rehash.FixedBuildAgrees | APTS_Tulks/APTS_Tulks.cpp:83-101 | up to 50001 puts no resize happens, so the corrected and as-written tables are equal |
| Rehash.FixedKeepsKey | APTS_Tulks/APTS_Tulks.cpp:83-101 | on the input that loses "n_G", the corrected table still returns "2" |

## Left out

- Input and output: `freopen`, `scanf` and `printf` on `tulks.in` and `tulks.out`. The driver works on the sequence of tokens read, and returns the sequence of words written.
- The separator logic at APTS_Tulks/APTS_Tulks.cpp:273-281 (`feof`, spaces and the final newline) is not modelled. Its output is the list of words.
- The timing code in `main` is left out, because it does not affect the output.
- `clear`, `~Map`, `delete`, and the nodes that `setBuckets` leaks after `invert` are left out. Memory is not modelled.
- `memset` over the `Node*` bucket arrays (lines 88, 108 and 141) is modelled as a fresh array of empty chains. `CStrings.Memset` models the helper itself on a byte array.
- `LOAD_FACTOR` is a `float`. The test `size >= LOAD_FACTOR * capacity` is modelled as the exact integer test `size >= capacity`. This is the same for every capacity below 2^24.
- Driver.Run: tokens of 21 bytes or more are excluded by its precondition. `scanf("%s")` into a 21-byte buffer would overflow, so that behaviour is undefined.
- Driver.Run: input that ends before any marker yields `None`. In the program the definition loop at APTS_Tulks/APTS_Tulks.cpp:244-251 then never ends: at end of file `scanf` leaves `currentString` unchanged, so the same `put` repeats forever.
- Driver.RunForward, Driver.RunReverse and Driver.RunReverseComplete: each is stated for at most 50001 definitions. Beyond that the as-written `resize` can lose entries (see "## Findings").
- DictionaryProps.InvertTwiceRestores: requires that no key is put twice, because with a repeated key the law fails. For example, put ("a", "2") and then ("a", "1"). `hash("1") % 50001` is 27620 and `hash("2") % 50001` is 27621. The first `invert` stores ("1", "a") in slot 27620 and ("2", "a") in slot 27621. The second `invert` visits slot 27620 first, so it stores ("a", "1") before ("a", "2"). `get("a")` then returns "1" where the original map returned "2". This example is worked by hand from the definitions and is not a lemma: unfolding `invert` over 50001 slots is beyond the verifier.
- DictionaryProps.InvertLookup and Driver.ReverseAnswerComplete: each is stated for at most 50001 entries. Building the inverted map beyond that runs the as-written `resize`, which can lose entries.
- HashTable.Map.AppendNode: the walk along `next` pointers to the last node (APTS_Tulks/APTS_Tulks.cpp:179-181) is not modelled step by step. The chain is a sequence, and the new node is appended to it.
- HashTable.Map.AppendNode, HashTable.Map.PutInverted and HashTable.Map.Inverted: each states the new state as a `Dictionary` function of the old one. Validity of the result then follows from that function's own contract, and is not repeated in the method's `ensures`.
- Hashing.ComputeHash: the loop index is a C `int` compared with a `size_t` length. It is modelled as an unbounded index, which is exact for keys under 2^31 bytes.

## Findings

| source | as written | input that shows it | evidently intended | confidence | as-written member | corrected member |
|---|---|---|---|---|---|---|
| APTS_Tulks/APTS_Tulks.cpp:90-96 | `resize` moves each old chain whole, by its head's `hashValue % newCapacity`. A node behind the head stays in that chain even when its own hash selects another new slot, and `get` never looks there | put ("AAA","1"), ("n_G","2"), then ("AAA","1") 49999 times. All share slot 46127, and `get("n_G")` is "2". The next `put("AAA","1")` resizes to 100002 slots. "n_G" now hashes to 96128 but is still chained behind "AAA" in 46127, so `get("n_G")` returns null | every node is rehashed into slot `hashValue % newCapacity`, so that no lookup changes (the comment at line 82 says the contents are copied) | not executed | Rehash.ResizeLosesKey | Rehash.FixedKeepsKey |

Rehash.ResizeStrandsKey states the general form of the defect: a key present only behind a head that moves is lost.
The corrected resize is Rehash.FixedResize. With it, Rehash.FixedBuildLookup proves that `get` returns the first definition for any number of puts.
The class in `hashmap.dfy` and the driver keep the as-written `resize`, because they model the program.
Rehash.FixedBuildAgrees shows that up to 50001 definitions the two resizes build the same table. So every driver property stated for at most 50001 definitions also holds for the corrected program.
