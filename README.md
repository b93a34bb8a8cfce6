# Register bank of radare2's libr/reg (reg.c), in Dafny

This project models the register-file bookkeeping core of radare2's `libr/reg/reg.c` and proves properties of the model. The core consists of:

- **Catalog**: the fixed table of register classes (`gpr drx fpu mmx xmm flg seg`). It covers the lookups between class ordinals and class names and the two-character role keywords (`pc sr sp bp a0 a1 a2 a3`).
- **Bank** (`RReg`): a class holding the role name table and one register set per class. Each register set has an item list, an arena pool and a cached current arena. The class provides `r_reg_new`, `r_reg_free_internal`, `r_reg_push`, `r_reg_pop`, the name and item lookups, and profile loading.
- **Parser**: `r_reg_set_profile_string` appears twice.
  - An imperative method works over a 256-character `buf` array, like the C loop.
  - A reference function (`Step`, `Run`, `Strip`, `ParseProfile`) is what the method is proved equal to. The theorems in `ParserFacts` are stated about it.
- **Arenas**: the arena allocator sits outside `reg.c`. It is modelled as a deterministic allocator class: the first `avail` creations succeed, and later ones return NULL. This lets a failing `r_reg_arena_new` be reasoned about. Releasing a handle requires it to be live, so no handle is ever released twice.

Module layout:

| file | module | role |
|---|---|---|
| wrappers.dfy | `Wrappers` | `Option` for NULL |
| catalog.dfy | `Catalog` | classes and roles |
| fields.dfy | `Fields` | registry items, `atoi`, `r_reg_set_word` |
| parser.dfy | `Parser` | the reference parser and the method helpers |
| parser_facts.dfy | `ParserFacts` | theorems about the parser |
| arenas.dfy | `Arenas` | the arena allocator |
| regsets.dfy | `RegSets` | push, pop and clear as functions of the register sets, plus the ownership lemmas |
| bank.dfy | `Bank` | the `Reg` class |

Constants that `r_reg.h` would define are fixed as follows, because that header is not part of this model:

- `R_REG_TYPE_LAST = 7` and `R_REG_TYPE_ALL = -1`.
- `R_REG_NAME_LAST = 8`, with role ordinals in the order of the `r_reg_get_name_idx` switch.
- `regset[]` has `R_REG_TYPE_LAST` entries.

A pool's free function is taken to release each arena exactly once. `r_list_head` in `r_reg_pop` is taken to yield the head arena (see "## Left out"). `list.h` is not part of this model either.

The model follows the code in these places:

- A definition line is committed only when more than three blanks were seen on the line before the newline (`word > 3`) and the pending item has a name: see `ParserFacts.CommitRule`. Every blank counts, so five or more columns commit, and so do fewer columns separated by doubled blanks or followed by a trailing blank. A plain four-column line `gpr eax 4 0` is not committed: see `ParserFacts.ShortLineNotCommitted`.
- `word` grows on every blank, including a blank that follows a blank. A doubled blank therefore advances the column without dispatching a word, and the next word lands one column further on: see `ParserFacts.DoubleBlank`.
- A word may hold 129 characters. The 130th character fails the parse (`chidx > 128`), not the 129th: see `ParserFacts.ParseOkIffWordsFit`.
- A failing parse returns without undoing anything. Lines committed before the failure stay in the lists: see `ParserFacts.FailureKeepsCommitted`.
- `r_reg_pop` has no floor. It pops every non-empty pool up to the first empty one, can leave pools empty with NULL current arenas, and is then a no-op: see `RegSets.PopHasNoFloor`.
- `r_reg_free_internal` leaves every pool empty and sets each current arena to a new arena that no pool holds. It does not clear role names.
- The buffer `buf` is not cleared at a newline. A blank at the start of the next line therefore dispatches the previous line's last word again, as the class word of column 0: see `ParserFacts.StaleRedispatch`.

## Model

| member | source | states |
|---|---|---|
| Catalog.TypeByName | libr/reg/reg.c:141-150 | the result is a class ordinal whose name is the input, or -1 exactly for "all", or 7 exactly for every other string |
| Catalog.TypeName | libr/reg/reg.c:11-15 | r_reg_get_type gives a name exactly for the ordinals 0..6, and that name is one of the class names |
| Catalog.TypeNameRoundTrip | libr/reg/reg.c:7-15 | r_reg_get_type names exactly the ordinals 0..6, and r_reg_type_by_name maps each name back to its ordinal |
| Catalog.RoleIndex | libr/reg/reg.c:22-35 | the result is a role or -1; it is a role exactly when the first two characters are one of the eight keywords, and that keyword is the role's |
| Catalog.RoleIndexPrefix | libr/reg/reg.c:22-35 | only the first two characters decide the role ("pcfoo" selects pc) |
| Catalog.RoleKeywordsDistinct | libr/reg/reg.c:22-35 | each keyword selects its own role, so the eight roles are distinct |
| Catalog.Bind | libr/reg/reg.c:38-45 | an in-range role is bound to the name and every other role keeps its binding; an out-of-range role changes nothing |
| Bank.Reg.SetName | libr/reg/reg.c:38-45 | returns true exactly for an in-range role; the table becomes Bind of the old one, so r_reg_get_name then yields the name, and the register sets are unchanged |
| Bank.Reg.GetName | libr/reg/reg.c:47-51 | an out-of-range role yields NULL; otherwise the bound name |
| Bank.Reg.New | libr/reg/reg.c:70-86 | NULL exactly when fewer than 7 arenas can be created; otherwise no role is bound, each class has no items and a pool of one new arena that is also current, and the bank owns exactly the created handles; the allocator has used up min(7, avail) creations |
| Arenas.Allocator.Create | libr/reg/reg.c:81 | a creation succeeds exactly while creations are available and returns a handle that was not live; the live set grows by exactly that handle |
| Arenas.Allocator.Release | libr/reg/reg.c:123-124 | only a live handle can be released, so nothing is released twice; it leaves the live set |
| Arenas.Allocator.ReleaseAll | libr/reg/reg.c:57 | destroying a pool releases each of its handles exactly once |
| RegSets.ReleaseStep | libr/reg/reg.c:53-60 | clearing class i releases only live handles, none twice, and afterwards exactly the handles of classes 0..i are gone |
| Bank.Reg.FreeInternal | libr/reg/reg.c:53-60 | the register sets become Cleared; every pooled handle is released once and the new ones are live; names are untouched; the bank still owns every pooled handle |
| Bank.Reg.Push | libr/reg/reg.c:88-96 | the sets become Pushed; the result is the new length of pool 0 when all 7 creations succeed and 0 otherwise; the allocator has used up min(7, avail) creations; ownership is kept |
| Bank.Reg.PushArenas | libr/reg/reg.c:90-94 | the loop gives each class in turn a new current arena, on top of its pool when creation succeeds; it stops at the first failed creation, and the sets it leaves are Pushed |
| RegSets.PushedOwned | libr/reg/reg.c:88-96 | after a push every pooled handle is live and sits in exactly one pool slot |
| RegSets.PushedCurrent | libr/reg/reg.c:88-96 | a successful push keeps each cached arena equal to the head of its pool |
| RegSets.PushFailureLeavesNullArena | libr/reg/reg.c:88-96 | a failed push is not atomic: earlier classes stay pushed, and the failing class's cached arena is NULL although its pool has a head |
| RegSets.FirstEmpty | libr/reg/reg.c:119-133 | the first class at or after t with an empty pool, every class before it having a non-empty pool |
| RegSets.FirstEmptyAt | libr/reg/reg.c:119-133 | the class where the pop loop breaks is FirstEmpty |
| Bank.Reg.Pop | libr/reg/reg.c:119-133 | the sets become Popped: up to the first empty pool, each pool loses its head, which is released once, and the cached arena is re-read from the new head; ownership is kept |
| RegSets.PoppedOwned | libr/reg/reg.c:119-133 | a pop releases only live handles, and the remaining pooled handles each sit in one slot |
| RegSets.PoppedCurrent | libr/reg/reg.c:119-133 | after a pop every cached arena is the head of its pool |
| RegSets.PopUndoesPush | libr/reg/reg.c:88-133 | a pop after a successful push restores the register sets exactly |
| RegSets.PopHasNoFloor | libr/reg/reg.c:119-133 | on a fresh bank one pop empties every pool with NULL current arenas, and a second pop changes nothing |
| RegSets.FindItem | libr/reg/reg.c:283-287 | the index of the first item with the given name in a list, or None exactly when no item has it |
| RegSets.Locate | libr/reg/reg.c:270-291 | the first position (class, index) holding the name when classes are scanned in order from lo to hi, or None exactly when no class in the range holds it |
| Bank.Reg.Get | libr/reg/reg.c:270-291 | a found item is at a position (class, index) of the selected classes (all classes for -1), has the name, and no earlier position in scan order (classes in order, items in list order) holds the name; None exactly when no item of the selected classes has the name |
| Bank.Reg.GetList | libr/reg/reg.c:293-297 | with the corrected bound, the list of class t exactly for 0 <= t < 7, each of its items of class t, and NULL otherwise |
| Bank.GetListGuardAdmitsLast | libr/reg/reg.c:293-297 | the guard as written lets t = 7 through, which is one past the last register set |
| Fields.SetWord | libr/reg/reg.c:153-183 | column 0 sets the class from its name, 1 the name, 2/3/4 the size, offset and packed size in bits; the result is true exactly for columns 0..4; every other field is kept |
| Fields.Atoi | libr/reg/reg.c:165-176 | atoi is 0 when the text after white space starts with neither a digit nor a sign, and negative only after a minus sign |
| Fields.FieldBits | libr/reg/reg.c:163-178 | a size word without a leading '.' is a byte count, so its bits are a multiple of 8 |
| Fields.AtoiShowNat | libr/reg/reg.c:165-166 | atoi reads a rendered number back, also before non-digit text and after a minus sign |
| Fields.FieldBitsShowNat | libr/reg/reg.c:163-178 | a byte count n gives 8n bits, and ".n" gives n bits |
| Fields.FieldBitsExamples | libr/reg/reg.c:163-178 | "4" is 32 bits and ".7" is 7 bits |
| Parser.Init | libr/reg/reg.c:187-200 | the state before the first character keeps the parser invariant |
| Parser.Step | libr/reg/reg.c:209-245 | a character is refused exactly when it is not a blank or newline and chidx is above 128; otherwise the next state keeps the invariant (chidx at most 129 and within buf, setname a role or -1, every listed item in its own class and named) |
| Parser.Run | libr/reg/reg.c:202-247 | the parser invariant holds after any text |
| Parser.SkipComment | libr/reg/reg.c:203-207 | a comment runs up to the first newline or NUL, or to the end |
| Parser.Strip | libr/reg/reg.c:202-207 | what reaches the switch is no longer than the text and holds no '#' and no NUL |
| Parser.ParseProfile | libr/reg/reg.c:186-249 | the state after the whole text keeps the parser invariant (ParseOkIffWordsFit gives when it returns true) |
| Parser.SkipsComment | libr/reg/reg.c:203-207 | a comment from '#' to its line end contributes nothing to the characters the switch sees |
| Parser.Advance | libr/reg/reg.c:202-247 | an ordinary character of the text is one step of the switch followed by the run over the rest |
| Parser.StripAtEnd | libr/reg/reg.c:202 | the loop stops at the first NUL |
| Parser.CString | libr/reg/reg.c:212-243 | the string read from buf is its characters up to the first NUL, which it does not contain |
| Parser.ReadToken | libr/reg/reg.c:212-243 | when buf holds the token, the C string read from buf is that token |
| Parser.OnBlank | libr/reg/reg.c:210-221 | the blank case of the switch on buf and the loop variables gives exactly the state of Step |
| Parser.OnChar | libr/reg/reg.c:237-242 | the default case stores the character and a NUL after it in buf, exactly as Step does, or refuses when chidx is above 128 and leaves buf unchanged |
| Parser.SkipLine | libr/reg/reg.c:203-207 | the comment loop stops at the next newline or NUL, or at the end, and the skipped text contributes nothing |
| Bank.Reg.OnNewline | libr/reg/reg.c:222-236 | the newline case binds a selected role, or after more than three columns dispatches the last word and appends a named item to the list of its class; the result is the state of Step, and the register sets change only in their item lists |
| Bank.Reg.Feed | libr/reg/reg.c:208-245 | one pass of the switch on the real buffer and bank gives exactly Step's next state, and a refused character changes nothing |
| Bank.Reg.SetProfileString | libr/reg/reg.c:186-249 | after clearing as r_reg_free_internal does, the return value, the role names and each class's item list are those of ParseProfile; pools, arenas and the allocator are those the clearing left; ownership is kept |
| Bank.Reg.ParseText | libr/reg/reg.c:202-247 | on a bank with empty item lists, the character loop's return value, role names and item lists are those of ParseProfile, and pools and arenas are unchanged |
| Bank.Reg.SetProfile | libr/reg/reg.c:251-268 | the profile text is the file read directly, else the file under the plugin directory; with neither, false and no change; otherwise the same result as SetProfileString |
| ParserFacts.RunAppend | libr/reg/reg.c:202-247 | the loop over s + t is the loop over s, then, if that did not fail, the loop over t from where s ended |
| ParserFacts.ExtendToken | libr/reg/reg.c:237-242 | the characters of a word are appended to the token in buf one by one while it fits |
| ParserFacts.CollectWord | libr/reg/reg.c:218-242 | at the start of a column a word of at most 129 characters replaces whatever buf held |
| ParserFacts.WordThenBlank | libr/reg/reg.c:210-221 | a word followed by a blank is dispatched as the current column of the pending item, and the column advances |
| ParserFacts.WordThenNewline | libr/reg/reg.c:222-236 | a word followed by a newline is one step of the newline case after the word is collected |
| ParserFacts.CommitRule | libr/reg/reg.c:222-234 | for any state, at a newline: a named item after more than three columns goes to the end of the list of its class when that slot is a register set, and otherwise no list changes; a selected role is bound to the token; buf keeps its token and the next line starts at column 0 |
| ParserFacts.CommitOnlyAtNewline | libr/reg/reg.c:208-245 | a blank or an ordinary character changes no list and no name |
| ParserFacts.DoubleBlank | libr/reg/reg.c:217-220 | a blank after a blank advances the column without dispatching a word |
| ParserFacts.StaleRedispatch | libr/reg/reg.c:212-234 | after a newline buf still holds the last token, so a blank at the start of the next line sets the pending item's class from it |
| ParserFacts.ColumnThen | libr/reg/reg.c:210-221 | a word and a blank in front of any text fill the current column before the rest is read |
| ParserFacts.TwoColumnsThen | libr/reg/reg.c:210-221 | two words, each followed by a blank, fill the next two columns before the rest is read |
| ParserFacts.FourColumns | libr/reg/reg.c:210-221 | four words each followed by a blank fill columns 0..3 of the pending item |
| ParserFacts.DefinitionLine | libr/reg/reg.c:208-245 | a line "class name size offset packed" appends exactly its item to the list of its class when the class is one of the seven; otherwise nothing is appended; either way the next line starts with a new item and the names are unchanged |
| ParserFacts.ShortLineNotCommitted | libr/reg/reg.c:224-225 | a four-column line ending in a newline leaves every list and name as it was |
| ParserFacts.RoleLine | libr/reg/reg.c:212-224 | a line "=role name" binds the role named by the two characters after '=' (an unknown role binds nothing) and leaves every list as it was |
| ParserFacts.NoNewlineNoCommit | libr/reg/reg.c:222-236 | text without a newline changes no list and no name |
| ParserFacts.FinalLineDiscarded | libr/reg/reg.c:245-247 | text after the last newline is never committed, whether the run ends or fails there |
| ParserFacts.ListsGrow | libr/reg/reg.c:226-229 | the parser only appends: each list before a run is a prefix of the list after it |
| ParserFacts.FailureKeepsCommitted | libr/reg/reg.c:238-239 | a failing run keeps what the text before it committed |
| ParserFacts.LeadRun | libr/reg/reg.c:237-242 | the number of characters before the first blank or newline |
| ParserFacts.LongWordCons | libr/reg/reg.c:237-242 | a word longer than 129 characters starts at the front or lies in the rest |
| ParserFacts.LeadRunAtLeast | libr/reg/reg.c:237-242 | n leading non-separators make the leading run at least n |
| ParserFacts.RunOkIffFit | libr/reg/reg.c:237-242 | from column chidx, a run succeeds exactly when no word is longer than 129 characters and the current word still fits |
| ParserFacts.ParseOkIffWordsFit | libr/reg/reg.c:186-249 | r_reg_set_profile_string returns true exactly when no word of the text, with comments removed, is longer than 129 characters |
| ParserFacts.StripPlain | libr/reg/reg.c:202-207 | text without '#' or NUL reaches the switch unchanged |
| ParserFacts.StripDropsComment | libr/reg/reg.c:203-207 | a comment up to its line end is removed before the switch |
| ParserFacts.CommentIgnored | libr/reg/reg.c:203-207 | removing a comment does not change the result of r_reg_set_profile_string |
| ParserFacts.UnknownClassIndexesPastRegset | libr/reg/reg.c:222-229 | for a definition line whose class is not one of the seven, the index as written is 7 (or -1 for "all"): outside regset |
| ParserFacts.ExampleDefinition | libr/reg/reg.c:208-245 | "gpr eax 4 0 0" appends eax, 32 bits at offset 0, to the general-purpose list |
| ParserFacts.ExampleRole | libr/reg/reg.c:212-224 | "=pc eip" binds the program counter role to eip |
| ParserFacts.ExampleUnknownClass | libr/reg/reg.c:222-229 | "xyz r0 4 0 0" appends nothing |

## Left out

- File reading in `r_reg_set_profile` (`r_file_slurp`, `r_sys_getenv`, `r_str_concat`): the method takes the two possible file contents as parameters, with None for a missing file.
- The NULL checks on `reg` and `str` (reg.c:195-196, 48): the model's references and strings are never NULL.
- `eprintf` diagnostics: output only, no effect on the state.
- `r_reg_fit_arena` and arena sizes: their code is not part of this model. Arenas are opaque handles, and the fitting after a parse is not modelled.
- `r_reg_free` (reg.c:62-68): `FreeInternal` models its effect on the sets. The deallocation of the bank itself is not modelled.
- `r_reg_item_free` and the leaks: the items of cleared lists, the pending item at the end of a parse and the arenas that `r_reg_free_internal` creates but no pool holds are not tracked. Items are values, not heap objects.
- The commented-out debugger loop (reg.c:98-117) and the commented-out arena free in `r_reg_pop`: they are not code.
- The `profile` field of `RReg`: it is only set to NULL in `r_reg_new`.
- `Fields.Atoi`: C's `int` overflow in `atoi` and in the `* 8` conversion is not modelled. Integers are unbounded.
- `Bank.Reg.Get`: the class argument must be -1 or a class ordinal. The C code indexes `regset` with any other value, out of bounds.
- `Bank.Reg.New`: the arenas and lists created before a failing `r_reg_arena_new`, and `R_NEW` itself failing, are not modelled. Registers that `New` could not complete are simply lost.
- Characters and bytes: the text is a sequence of `char`, and each `char` stands for one byte of the C string. `chidx`, the 129-character word limit of `ParserFacts.ParseOkIffWordsFit` and the NUL stop count bytes in the source, so a multi-byte UTF-8 character is several characters of the model.
- `r_list_head` in `r_reg_pop` (reg.c:124, 126): `list.h` is not part of this model. The model reads it as the head arena: the head is deleted and the new head is the cached arena. If the macro yields the list node instead, then reg.c:126 stores the node as the current arena, and the model does not capture that.
- Signed `char` arithmetic in the `r_reg_get_name_idx` switch: keyword characters are ASCII, so no non-ASCII input can match.
- `Parser.Step`: a definition line whose class is not one of the seven is dropped. This is the corrected behaviour; see finding 2.

## Findings

| source | as written | input that shows it | evidently intended | confidence | as-written member | corrected member |
|---|---|---|---|---|---|---|
| libr/reg/reg.c:294 | `type > R_REG_TYPE_LAST` refuses only types above 7 | `r_reg_get_list(reg, 7)` reads `regset[7]`, one past the last register set | refuse `type >= R_REG_TYPE_LAST` | not executed; assumes `regset` has `R_REG_TYPE_LAST` entries | Bank.GetListGuardAdmitsLast | Bank.Reg.GetList |
| libr/reg/reg.c:228 | appends to `regset[item->type]` for any named item | the profile line `xyz r0 4 0 0` gives type 7; `all r0 4 0 0` gives type -1; both are outside `regset` | only commit items whose class is one of the seven | not executed | ParserFacts.UnknownClassIndexesPastRegset | ParserFacts.DefinitionLine |
