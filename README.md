# Fift base words, modelled in Dafny

This project models the base word set of a Fift interpreter written in Rust
(`BaseModule` in `src/modules/mod.rs`). Fift is a stack language. Every word
pops its arguments from one shared operand stack and pushes its results. The
words modelled here cover:

- type tests and `eqv?`;
- mutable boxes (`hole`, `box`, `@`, `!`, `allot`);
- atoms (`anon`, `(atom)`);
- tuples (`|`, `,`, `tpop`, `[]`, `[]=`, `[]!`, `[]>$`, `[]>$by`, `count`,
  `tuple`, `untuple`, `explode`);
- persistent maps (`hmapnew`, `hmap@`, `hmap@?`, `hmap-`, `hmap-?`, `hmap@-`,
  `hmap!`, `hmap!+`, `hmapempty?`, `hmapunpack`);
- the `hmapforeach` loop, driven through the loop protocol `pre_exec`,
  `post_exec` and `finalize` of `HmapIterCont`.

The model has two layers:

- **Specification functions** (module `Words`). Each word is a function from
  the stack contents (a `seq<Value>`, bottom first, top last) to the new
  contents or an error kind. Lemmas state each word's stack effect for
  well-typed inputs, its error cases, and the round trips between words.
- **Imperative words** (module `BaseModule`, and `HmapForeach` for the loop).
  Each word is a module-level method that takes the operand stack, an
  instance of the `Stack` class, and changes it in place. The method pops and
  pushes in the same order as the Rust code, with the same loops. Its `ensures` ties
  the outcome and the new stack to the specification function.

Supporting modules:

- `Values`: the stack values, boxes as a class, booleans as Fift integers
  (true is -1, false is 0), and `eqv?`.
- `KeyOrder`: the strict total order on map keys.
- `HashMapTree`: the persistent map as an immutable search tree, with
  lookup, `set`, `replace` and `remove`, each proved against the key-to-value
  map the tree stands for.
- `Atoms`: the atom table.
- `Pops` and `Stacks`: the typed pops and pushes of the operand stack.

## Model

| member | source | states |
|---|---|---|
| BaseModule.InterpretPushNull | src/modules/mod.rs:37-40 | `null` pushes null on top of the unchanged stack |
| BaseModule.InterpretIsType | src/modules/mod.rs:42-51 | a type test pops one value and pushes whether its kind is the tested one; underflow on an empty stack |
| Words.TestWordsShape | src/modules/mod.rs:42-51 | type test and `eqv?` stack effects on any stack: (x -- ?) and (x y -- ?); `eqv?` on fewer than two values fails |
| Values.Eqv | src/modules/mod.rs:111-128 | `eqv?` is true exactly when the values are equal and of a kind compared by value (null, integer, string, atom); true implies equal tags |
| Values.EqvBoxes | src/modules/mod.rs:122-123 | two boxes are never `eqv?`, even the same box |
| Values.EqvSymmetric | src/modules/mod.rs:111-128 | `eqv?` does not depend on argument order |
| BaseModule.InterpretIsEqv | src/modules/mod.rs:111-128 | pops y then x, pushes `eqv?`; same outcome and stack as the specification function |
| BaseModule.InterpretHole | src/modules/mod.rs:53-56 | pushes one fresh box holding null |
| BaseModule.InterpretBox | src/modules/mod.rs:58-62 | succeeds iff the stack is non-empty, else underflow; replaces the top value by a fresh box holding it |
| BaseModule.InterpretBoxFetch | src/modules/mod.rs:64-68 | succeeds iff the top is a box, else underflow on an empty stack and a type mismatch otherwise; replaces the box by what it holds |
| BaseModule.InterpretBoxStore | src/modules/mod.rs:70-75 | succeeds iff the top is a box over some value; fails as the box pop does (underflow or type mismatch), or with underflow when nothing is under the box; pops both, pushes nothing, and the box now holds the value; only that box and the stack change |
| BaseModule.BoxStoreThenFetch | src/modules/mod.rs:64-75 | after `!` on a box, `@` on the same box returns the stored value |
| BaseModule.InterpretAllot | src/modules/mod.rs:262-268 | succeeds iff the top is an integer in 0..=u32::MAX; pushes a tuple of that many boxes, each fresh, holding null, and pairwise distinct |
| Atoms.CreateNamedOnce | src/modules/mod.rs:83-96 | creating a named atom keeps the table valid, finds it by name afterwards, and a second creation returns the same atom without changing the table |
| Atoms.AnonFresh | src/modules/mod.rs:77-81 | two anonymous atoms are distinct from each other and from the atom of every name, including a name created after them |
| BaseModule.InterpretAtomAnon | src/modules/mod.rs:77-81 | pushes a new anonymous atom and advances the table as the specification function does |
| Words.AtomLookupSpec | src/modules/mod.rs:83-96 | `(atom)` with create=false never changes the table; pushes the atom and true when the name is known, else only false |
| Words.AtomCreateOnce | src/modules/mod.rs:83-96 | `(atom)` with any non-zero create flag pushes the atom registered under the name, then true; a known name leaves the table unchanged; repeating it on the new table gives the same stack and table |
| Words.AtomNamesDistinct | src/modules/mod.rs:83-96 | `(atom)` with create gives two different names two different atoms |
| BaseModule.InterpretAtom | src/modules/mod.rs:83-96 | pops create and name, creates at most once, pushes the atom only if one exists, then the flag; same outcome, stack and atom table as the specification function |
| BaseModule.InterpretEmptyTuple | src/modules/mod.rs:130-133 | `\|` pushes the empty tuple |
| Words.PushThenPopTuple | src/modules/mod.rs:135-149 | `,` appends the value to the tuple; `tpop` undoes it; `tpop` on an empty tuple fails |
| BaseModule.InterpretTuplePush | src/modules/mod.rs:135-141 | pops value then tuple and pushes the extended tuple; same outcome and stack as the specification function |
| BaseModule.InterpretTuplePop | src/modules/mod.rs:143-149 | pushes the shortened tuple and then its last item; same outcome and stack as the specification function |
| Words.TupleIndexSpec | src/modules/mod.rs:151-160 | `[]` pushes item i when i is below the length, else a range error |
| BaseModule.InterpretTupleIndex | src/modules/mod.rs:151-160 | pops index then tuple; same outcome and stack as the specification function |
| Words.TupleSetSpec | src/modules/mod.rs:162-171 | `[]=` succeeds iff i is below the length; the result has the same length, the value at i, and every other item unchanged |
| BaseModule.InterpretTupleSet | src/modules/mod.rs:162-171 | pops index, value, tuple; same outcome and stack as the specification function |
| Words.TupleInsertSpec | src/modules/mod.rs:173-187 | `[]!` succeeds iff i is at most the length; the result is one longer, has the value at i, the items before i in place and the items from i shifted by one |
| BaseModule.InterpretTupleInsert | src/modules/mod.rs:173-187 | pops index, value, tuple; same outcome and stack as the specification function |
| Words.EarlierHolderUnchanged | src/modules/mod.rs:139 | when a tuple is duplicated on the stack, `,`, `tpop`, `[]=` and `[]!` on the top copy leave the copy below unchanged (copy-on-write) |
| Words.JoinStrings | src/modules/mod.rs:202-209 | the join loop fails only with a type mismatch |
| Words.JoinSpec | src/modules/mod.rs:189-212 | a join succeeds iff every item is a string, and then yields the strings with the separator between each two consecutive ones, or simply concatenated with no separator |
| Words.InterleaveSnoc | src/modules/mod.rs:202-209 | appending one string to the joined items adds the separator (unless first) and the string at the end |
| BaseModule.PopSeparator | src/modules/mod.rs:192-196 | `[]>$by` pops a string separator, `[]>$` pops nothing |
| BaseModule.InterpretTupleStringsJoin | src/modules/mod.rs:189-212 | the join loop, separator before every item but the first, type mismatch on the first non-string; same outcome and stack as the specification function |
| Words.TupleLenSpec | src/modules/mod.rs:214-218 | `count` replaces a tuple by its length |
| BaseModule.InterpretTupleLen | src/modules/mod.rs:214-218 | pops a tuple, pushes its length; same outcome and stack as the specification function |
| BaseModule.ReversedTwice | src/modules/mod.rs:224-228 | reversing twice gives back the sequence, so popping n items and reversing them restores their stack order |
| BaseModule.ReversedAppend | src/modules/mod.rs:224-228 | reversal of a concatenation is the concatenation of the reversals, swapped |
| BaseModule.InterpretMakeTuple | src/modules/mod.rs:220-229 | pops n in 0..=255, then n items one by one, and pushes them as one tuple in stack order; underflow if fewer than n remain; same outcome and stack as the specification function |
| Words.TupleThenUntuple | src/modules/mod.rs:220-260 | `tuple` succeeds iff n items are there, packs the top n items, and `untuple` with the same n gives back the original stack |
| Words.ExplodeSpec | src/modules/mod.rs:231-260 | `untuple` spreads the items iff the tuple has exactly n, else a range error; `explode` spreads them and pushes the count iff there are at most 255, else a range error |
| BaseModule.PopCount | src/modules/mod.rs:234-238 | `untuple` pops a count in 0..=255, `explode` pops nothing |
| BaseModule.InterpretTupleExplode | src/modules/mod.rs:231-260 | checks the size, then pushes the items one by one (and the count for `explode`); same outcome and stack as the specification function |
| Pops.PopHashmap | src/modules/mod.rs:280 | a map argument is null (the empty map) or a map; anything else is a type mismatch, and an empty stack an underflow |
| Pops.PopKey | src/modules/mod.rs:281 | a key is null, an integer, a string or an atom; any other kind is a key error |
| Pops.PushThenPop | src/modules/mod.rs:280-281 | `PopBool`, `PopInt`, `PopString` and `PopHashmap` each read back a push of their kind, the empty map (pushed as null) included |
| Stacks.Stack.PushMap | src/modules/mod.rs:303 | the empty map is pushed as null, any other map as itself |
| BaseModule.InterpretHmapNew | src/modules/mod.rs:272-275 | `hmapnew` pushes the empty map |
| KeyOrder.LessIrreflexive | src/modules/mod.rs:281 | no key is less than itself |
| KeyOrder.LessTransitive | src/modules/mod.rs:281 | the key order is transitive |
| KeyOrder.LessAsymmetric | src/modules/mod.rs:281 | the key order is asymmetric |
| KeyOrder.LessTotal | src/modules/mod.rs:281 | any two distinct keys are ordered one way or the other |
| KeyOrder.StrLessTransitive | src/modules/mod.rs:281 | string keys compare lexicographically, transitively |
| KeyOrder.StrLessTotal | src/modules/mod.rs:281 | two distinct strings are ordered one way or the other |
| KeyOrder.StrLessIrreflexive | src/modules/mod.rs:281 | no string is less than itself |
| HashMapTree.KeysOfContents | src/modules/mod.rs:277-351 | the keys of a tree are the keys of the map it stands for |
| HashMapTree.KeysAreKeys | src/modules/mod.rs:281 | every key stored in an ordered tree is of a key kind |
| HashMapTree.SideOf | src/modules/mod.rs:282 | in an ordered tree a key smaller than the root can only be on the left, a larger one only on the right |
| HashMapTree.LookupCorrect | src/modules/mod.rs:282 | `lookup` finds the key's value exactly when the key is in the map |
| HashMapTree.SetCorrect | src/modules/mod.rs:323-324 | `set` keeps the tree ordered, adds the key, and the map becomes the old map with k bound to v |
| HashMapTree.SetKeys | src/modules/mod.rs:323-324 | `set` adds exactly the key to the key set |
| HashMapTree.SetOrdered | src/modules/mod.rs:323-324 | `set` keeps the search order |
| HashMapTree.SetContents | src/modules/mod.rs:323-324 | after `set` the map is the old one with k bound to v |
| HashMapTree.SetThenLookup | src/modules/mod.rs:323-324 | after `set` lookup of k gives v and lookup of any other key is unchanged |
| HashMapTree.SetExistingKeepsShape | src/modules/mod.rs:323-324 | `set` of a key already present keeps the tree's shape, changing one value |
| HashMapTree.ReplaceIsSetOrNothing | src/modules/mod.rs:325-326 | `replace` acts as `set` when the key is present and returns the same tree when it is absent |
| HashMapTree.RemoveMinKeys | src/modules/mod.rs:302 | removing the minimum takes out one key, smaller than all the remaining ones |
| HashMapTree.RemoveMinOrdered | src/modules/mod.rs:302 | removing the minimum keeps the search order |
| HashMapTree.RemoveMinContents | src/modules/mod.rs:302 | the removed minimum is an entry of the map, and the rest is the map without it |
| HashMapTree.MergeCorrect | src/modules/mod.rs:302 | joining two ordered subtrees around a removed key keeps the order and unites their maps |
| HashMapTree.RemoveKeys | src/modules/mod.rs:302 | `remove` keeps the order and takes exactly the key out of the key set |
| HashMapTree.RemoveContents | src/modules/mod.rs:302 | `remove` deletes the key from the map, returns the old value if there was one, and returns the same tree when the key is absent |
| HashMapTree.RemoveCorrect | src/modules/mod.rs:302 | `remove` keeps the order, deletes exactly the key, and returns its old value or nothing |
| HashMapTree.RemoveThenLookup | src/modules/mod.rs:302 | after `remove` the key is not found and every other key is found as before |
| HashMapTree.EntriesAreContents | src/modules/mod.rs:443 | the iteration order lists exactly the pairs of the map |
| HashMapTree.EntryKeysInTree | src/modules/mod.rs:443 | every listed entry has a key of the tree |
| HashMapTree.EntriesSorted | src/modules/mod.rs:443 | the iteration lists keys in strictly increasing key order, hence each once |
| HashMapTree.SetThreeRemoveOne | src/modules/mod.rs:296-330 | worked example: three `hmap!+` then one `hmap-` list the expected entries |
| Words.MapStack | src/modules/mod.rs:280-281 | a key under a map pops back as that key and that map |
| Words.HmapFetchSpec | src/modules/mod.rs:277-294 | `hmap@` pushes the value or null when the key is missing; `hmap@?` pushes value then true, or only false; for both words a non-key is a key error |
| BaseModule.InterpretHmapFetch | src/modules/mod.rs:277-294 | pops map then key, looks up, pushes as the word's flags say; same outcome and stack as the specification function |
| Words.HmapDeleteSpec | src/modules/mod.rs:296-315 | the delete words push the new map first (the old map without the key); `hmap@-` then the removed value or null; `hmap-?` then whether the key existed |
| BaseModule.InterpretHmapDelete | src/modules/mod.rs:296-315 | pops map then key, removes, pushes as the word's flags say; same outcome and stack as the specification function |
| Words.HmapStoreThenFetch | src/modules/mod.rs:317-330 | `hmap!+` pushes the map with the key set, and `hmap@` then fetches the stored value; `hmap!` on an absent key pushes the map unchanged |
| BaseModule.InterpretHmapStore | src/modules/mod.rs:317-330 | pops map, key, value; `set` or `replace` by the flag; pushes the result; same outcome and stack as the specification function |
| Words.EmptyIffNoContents | src/modules/mod.rs:332-336 | a tree is empty exactly when it stands for the empty map |
| Words.HmapIsEmptySpec | src/modules/mod.rs:332-336 | `hmapempty?` is true iff the map has no entries |
| BaseModule.InterpretHmapIsEmpty | src/modules/mod.rs:332-336 | pops a map, pushes whether it is absent; same outcome and stack as the specification function |
| Words.HmapDecomposeSpec | src/modules/mod.rs:338-351 | `hmapunpack` pushes key, value, left, right, true for a non-empty map and only false for the empty one |
| BaseModule.InterpretHmapDecompose | src/modules/mod.rs:338-351 | pops a map, pushes its root parts then the flag; same outcome and stack as the specification function |
| HmapForeach.Runs | src/modules/mod.rs:451-454 | the body runs at most once per entry, and at least once when there is an entry |
| HmapForeach.RunsAllTrue | src/modules/mod.rs:451-454 | a body that always leaves true runs exactly once per entry |
| HmapForeach.RunsFirstFalse | src/modules/mod.rs:451-454 | a body that first leaves false on entry i stops right after that entry, having run i+1 times |
| HmapForeach.LastFlagIffAllTrue | src/modules/mod.rs:456-459 | the last flag is true exactly when the body left true for every entry; a loop stopped early always ends on false |
| HmapForeach.LastRefusedFullPass | src/modules/mod.rs:451-459 | a body that refuses only the last entry visits every entry and the pushed flag is still false |
| HmapForeach.HmapIterCont.PreExec | src/modules/mod.rs:440-449 | pushes the next entry's key then value and consumes it, or says there is none and changes nothing |
| HmapForeach.HmapIterCont.PostExec | src/modules/mod.rs:451-454 | pops the body's flag into `ok` and goes on iff it is true and entries remain; fails as the bool pop does (underflow or type mismatch) |
| HmapForeach.HmapIterCont.Finalize | src/modules/mod.rs:456-459 | pushes the last flag |
| HmapForeach.RunBody | src/modules/mod.rs:359-365 | the body consumes the value and key on top and leaves its flag for that entry |
| HmapForeach.Drive | src/modules/mod.rs:433-459 | over a non-empty iteration, the body sees the entries in order up to and including the first false, and the stack ends with the last flag on top |
| HmapForeach.InterpretHmapForeach | src/modules/mod.rs:353-367 | pops the body then the map; an empty map runs nothing and pushes nothing; otherwise the body sees the entries in order, key then value, up to the first false, and the flag pushed is true iff no entry was refused; fails as the continuation pop, or else the map pop, does (underflow or type mismatch) |

## Left out

- `eq?` (src/modules/mod.rs:104-109): it calls `is_equal`, which is not part of this model.
- `atom>$` (src/modules/mod.rs:98-102): the text form of an atom is not part of this model.
- The environment words `now`, `now_ms`, `getenv`, `getenv?`, `file>B`, `filepart>B`, `B>file` and `file-exists?` (src/modules/mod.rs:369-430): they only wrap the host clock, environment and file system.
- The `init` hook defining `nop`, the module registration attributes and the re-exported submodules (src/modules/mod.rs:8-35): they wire words into the dictionary and do nothing on the stack.
- `src/main.rs`: the process entry point, which only wires standard input and output.
- The continuation graph: `LoopCont::new` and `ctx.next.take()` (src/modules/mod.rs:359-365) are modelled by the `HmapForeach.Drive` loop. The popped body continuation is a parameter `body` that consumes the key and value and leaves a flag decided by them. A body that fails, leaves other values behind, or changes the map is not modelled.
- The code of the persistent map tree (`HashMapTreeNode`, its owned iterator and its key order) is not part of this model; `HashMapTree` models it as an unbalanced search tree over a strict total order: null before integers, before strings, before atoms, then by value, with strings compared lexicographically. The real tree may balance itself, order keys differently and so iterate in another order. The properties above are stated against the key-to-value map the tree stands for.
- The code of the stack layer (`pop_*`, `push_*`) is not part of this model; `Pops` and `Stacks` model it by the Fift conventions. Booleans follow the Fift convention: true is -1, false is 0, and any non-zero integer reads as true.
- Value kinds other than null, integers, strings, tuples, atoms, boxes, maps and continuations (bytes, cells, slices, builders and others) are left out.
- A map value built around the empty tree (`HMap(Empty)`) is admitted by the `Value` type but never pushed by any word, since the empty map is always pushed as null; `PopHashmap` reads it as the empty map, while `null?` and `eqv?` would not treat it as null.
- The flag `hmapforeach` pushes is the last flag the body left, as `finalize` pushes `ok` (src/modules/mod.rs:451-459). It is true exactly when the body accepted every entry, not when the loop merely visited every entry: a body that refuses only the last entry still gives false (`HmapForeach.LastRefusedFullPass`). The model follows the code here, not the looser reading "true iff the loop ran to completion".
- Integers are unbounded. `usize` is taken as 64 bits. Limits on stack pushes are left out.
- Every word promises, after a failure, only the error kind. The stack after a failure is unspecified, because a failing word ends the run.
- Tuples are values (`seq`), so the in-place update through `Rc::make_mut` (src/modules/mod.rs:139, 146, 167, 185) is not modelled. Its observable effect, that other holders of the tuple see no change, is stated by `Words.EarlierHolderUnchanged`.
- Words.HmapDeleteSpec: requires that `chk` and `read` are not both set, since no registered word sets both (src/modules/mod.rs:296-298). `BaseModule.InterpretHmapDelete` handles all four combinations.
