# Roman numeral parser, modelled in Dafny

The parser reads a Roman numeral one character at a time and builds a binary
tree from it. Each character is mapped, ignoring case, to one of the seven
symbols I, V, X, L, C, D, M (weights 1 to 1000) and appended to the node the
previous append returned, starting from a root that holds no symbol:

- the same symbol again increments the node's repeat counter;
- a lower symbol becomes the node's right child;
- a higher symbol hangs as a temporary right child. A left rotation then makes
  the current node the new node's left child, i.e. the subtracted part.

The value is computed recursively: multiplier times weight, minus the left
subtree, plus the right subtree. Any rule violation throws, `Parse` passes
the exception on, and `TryParse` turns it into `false` and 0.

The repository holds two revisions of this design, and both are modelled:

- the current one: `Model/Node.cs` with its driver `RomanNumeral.cs`. It has
  the full grammar: the repetition cap, no repeating or subtracting V/L/D, at
  most ten times on a subtraction, and the left-child and collision checks.
- the earlier one: `Node.cs` with its driver `RomanNumber.cs`. It has only the
  repetition cap, the ban on repeating a node that has a left child
  (`Node.cs:49-50`, so "IXX" is rejected), and the multiplier check in the
  rotation, so subtracted parts nest: "IXC" = 100 - (10 - 1) = 91.

## Structure

- `Numerals.dfy`: the symbols and their weights, the character mapping, and
  the textbook reading `Classic`, in which a symbol counts negatively exactly
  when the next one weighs more.
- `Spine.dfy`: every tree of the current revision is a right spine from the
  root. Each spine node holds a symbol, a multiplier and at most one
  subtracted left leaf. This module is that shape as a value, with
  `Appended` and `RotatedLeft` as what one append does to it. Its lemmas show
  that every built tree obeys the grammar, that its in-order symbols are the
  input, and that its value is the textbook reading of that input.
- `ModelNode.dfy`: the `Node` class of `Model/Node.cs` on the heap:
  - `Parent`, `Left`, `Right` and the multiplier, updated in place by `Append`
    and `RotateLeft`;
  - ghost bookkeeping on the root (spine nodes, their spine value, footprint);
  - each method proved against `Spine`;
  - `GetDecimalValue` proved equal to `Spine.Value`.
- `RomanNumeral.dfy`: the `Parse` loop and `TryParse`, proved against the
  function `Parsed`, with lemmas about accepted and rejected strings.
- `LegacySpine.dfy`, `LegacyNode.dfy`, `RomanNumber.dfy`: the same three
  layers for the earlier revision. A spine node there carries a descending
  chain of subtracted symbols, since its rotation moves a node together with
  its whole left chain.
- `Revisions.dfy`: the earlier parser accepts every string the current one
  accepts, with the same value; "VV" shows that the converse fails.

A thrown exception is the `None` of an `Option` result in every module,
except in the two `RotateLeft` methods, which report a throw as
`ok == false` to the `Append` that called them.
Two throws, "right child already exists" and "no parent", are unreachable
while the parser drives `Append`. They are `assert false` branches, and the
proofs show they never fire.

## Where the code departs from its own comments and declarations

The model follows the code in each case.

- The comment at `Model/Node.cs:97-100` gives MCMXCIX as the Roman form of
  1999. The check at `Model/Node.cs:134` rejects a rotation whenever the
  parent holds the incoming symbol, so the prefix "MCM" already fails: C
  rotates under M while its parent holds M. "XIX" and "CXC" fail the same
  way (`RomanNumeral.RejectsMCMXCIX`, `RomanNumeral.RejectsXIX`,
  `RomanNumeral.RejectsCXC`). The earlier revision has no such check and
  reads "MCMXCIX" as 1999 (`RomanNumber.AcceptsMCMXCIX`).
- `Model/MaximumRepetitions.cs:3-13` declares a cap of three (`meThree`) or
  four (`meFour`) repetitions. Nothing reads that enum. `Model/Node.cs:55`
  and `Node.cs:52` hard-code 3, and so does the model
  (`Spine.MaxRepetitions`), so "IIII" is always rejected.

## Model

| member | source | states |
|---|---|---|
| Numerals.WeightInjective | Model/Node.cs:47-87 | the weights are distinct, so equal, lower and higher (the three Append cases) split every pair of symbols |
| Numerals.FromChar | RomanNumeral.cs:20-21 | a character names a symbol exactly when its upper-case form is one of I, V, X, L, C, D, M, and then the symbol that letter names |
| Numerals.FromCharIgnoresCase | RomanNumeral.cs:20 | a character and its upper-case form name the same symbol, or none |
| Numerals.FromCharLetter | RomanNumber.cs:13 | every symbol is recognised from its letter in upper and in lower case |
| Numerals.Scan | RomanNumeral.cs:17-21 | the symbols of a string exist exactly when every character names one, and then they are the characters' symbols in order |
| Numerals.ScanPrefix | RomanNumeral.cs:17-24 | the symbols of a prefix are the prefix of the symbols |
| Numerals.ScanIgnoresCase | RomanNumeral.cs:20 | a string and its upper-case form have the same symbols |
| Spine.Appended | Model/Node.cs:37-113 | one append as a value: the root takes the first symbol; the same symbol fails on a left child, on V/L/D or at 3 copies, else adds a copy; a lower one fails when it equals the left leaf, else becomes the next node; a higher one fails when the node is V/L/D or the ratio exceeds 10, else rotates |
| Spine.RotatedLeft | Model/Node.cs:115-142 | the rotation as a value: it fails for a repeated node, a node with a left leaf, or a parent holding the new symbol; otherwise the last node becomes the subtracted leaf of the new one |
| Spine.Built | RomanNumeral.cs:14-24 | the tree a symbol sequence builds from a fresh root, one append per symbol, None from the first failing append on |
| Spine.EntryValue | Model/Node.cs:144-155 | one spine node's share of GetDecimalValue: multiplier times weight, minus the left leaf |
| Spine.Value | Model/Node.cs:144-155 | GetDecimalValue of the subtree from a spine node: its share plus the value of the right subtree |
| Spine.SubtractivePairs | Model/Node.cs:93-104 | the V/L/D rule and the ratio rule on a higher symbol admit exactly IV, IX, XL, XC, CD and CM |
| Spine.AppendedWellFormed | Model/Node.cs:37-113 | every successful append keeps the grammar: at most 3 copies, V/L/D once, a left leaf only once and only subtractive, no two neighbours alike, each node starting below the one before |
| Spine.AppendedSymbols | Model/Node.cs:37-142 | every successful append, rotation included, adds exactly the appended symbol at the end of the in-order symbols |
| Spine.SymbolsRepeated | Model/Node.cs:58-59 | one more repetition adds one more copy of the node's symbol in order |
| Spine.SymbolsRotated | Model/Node.cs:137-141 | a rotation keeps the in-order symbols, with the new symbol after the subtracted one |
| Spine.BuiltWellFormed | RomanNumeral.cs:17-24 | every tree the parser builds, whatever the input, obeys the grammar |
| Spine.BuiltSymbols | RomanNumeral.cs:17-24 | the in-order symbols of a built tree are exactly the symbols consumed |
| Spine.BuiltPrefix | RomanNumeral.cs:17-24 | a prefix of an accepted input is accepted: the first failing symbol ends the parse |
| Spine.ValueIsClassic | Model/Node.cs:144-155 | the value of a well-formed tree is the textbook reading of its symbols (a symbol counts negatively exactly when the next one weighs more) |
| Spine.ValuePositive | Model/Node.cs:144-155 | a well-formed tree is worth 0 when empty and more than 0 otherwise |
| ModelNode.Node.Root | Model/Node.cs:12-19 | the root has no symbol, multiplier 0 and no links |
| ModelNode.Node.constructor | Model/Node.cs:30-35 | a new node holds one copy of its symbol, points back to its parent and has no children |
| ModelNode.Node.CreateRoot | Model/Node.cs:25-28 | a fresh root is a valid empty tree whose last spine node is itself |
| ModelNode.Node.Append | Model/Node.cs:37-113 | appending to the last spine node succeeds exactly when Spine.Appended does; then the tree is valid, stands for the appended spine, and the returned node is its last spine node, this node itself after a repeat; a failure changes nothing but a possibly new pending right child |
| ModelNode.Node.AppendSame | Model/Node.cs:46-60 | the same symbol fails with a left child, on V/L/D, or at multiplier 3, and otherwise adds one repetition and returns this node |
| ModelNode.Node.AppendLower | Model/Node.cs:64-77 | a lower symbol fails when the left child holds it, and otherwise becomes the new last spine node; the right-child throw is never reached |
| ModelNode.Node.AppendHigher | Model/Node.cs:87-110 | a higher symbol fails after V/L/D or beyond ten times, and otherwise hangs and rotates in; the right-child throw is never reached |
| ModelNode.Node.AddRight | Model/Node.cs:42-43 | a new right child of the last spine node becomes the last spine node with one copy of its symbol |
| ModelNode.Node.HangRight | Model/Node.cs:106-107 | the pending right child hangs off the last spine node without changing the tree it stands for |
| ModelNode.Node.Repeated | Model/Node.cs:58-59 | one more repetition of the last spine node, the rest unchanged |
| ModelNode.Node.RotateLeft | Model/Node.cs:115-142 | the rotation fails exactly for a repeated node, a node with a left child, or a parent holding the new symbol; it relinks parent, node and new node as in Spine.RotatedLeft; the no-parent throw is never reached |
| ModelNode.Node.Relink | Model/Node.cs:137-141 | the five pointer updates put the new node in the node's place under the parent, with the node as its left leaf |
| ModelNode.Node.RelinkKeepsLinked | Model/Node.cs:137-141 | the relinked tree is again a right spine whose nodes hold the rotated spine |
| ModelNode.Node.PushKeepsLinked | Model/Node.cs:75-76 | a new last spine node keeps the pointer structure |
| ModelNode.Node.GetDecimalValue | Model/Node.cs:144-155 | the recursive value of the root is Spine.Value of the tree; of a spine node, the value of the entries from it on; of a left leaf, its weight |
| RomanNumeral.Parsed | RomanNumeral.cs:12-27 | the outcome of Parse: None when a character names no symbol or an append fails, otherwise the value of the built tree |
| RomanNumeral.Parse | RomanNumeral.cs:12-27 | the character loop returns exactly Parsed: None as soon as a character or an append fails, otherwise the root's value |
| RomanNumeral.Feed | RomanNumeral.cs:23 | one append on the tree the earlier characters built fails exactly when the longer prefix builds no tree, and then the whole string is rejected; otherwise the tree is the one that prefix builds |
| RomanNumeral.TryParse | RomanNumeral.cs:35-47 | succeeds exactly when Parse does, with its value, and returns 0 otherwise |
| RomanNumeral.RejectedPrefix | RomanNumeral.cs:17-24 | a string with a rejected prefix is rejected |
| RomanNumeral.ParsedIsClassic | RomanNumeral.cs:26 | the value of every accepted string is the textbook reading of its symbols |
| RomanNumeral.ParsedPositive | RomanNumeral.cs:12-26 | the empty string is 0 and every other accepted string is positive |
| RomanNumeral.ParsedIgnoresCase | RomanNumeral.cs:20 | a string and its upper-case form parse alike |
| RomanNumeral.ParsedBadCharacter | RomanNumeral.cs:20-21 | a character that names no symbol fails the parse, wherever it is |
| RomanNumeral.AcceptsEmpty | RomanNumeral.cs:17-26 | "" parses to 0 |
| RomanNumeral.AcceptsLowerCase | RomanNumeral.cs:20 | "xiv" parses to 14 |
| RomanNumeral.AcceptsIII | Model/Node.cs:46-60 | "III" parses to 3 |
| RomanNumeral.AcceptsIV | Model/Node.cs:87-110 | "IV" parses to 4 |
| RomanNumeral.AcceptsIX | Model/Node.cs:87-110 | "IX" parses to 9 |
| RomanNumeral.AcceptsXL | Model/Node.cs:87-110 | "XL" parses to 40 |
| RomanNumeral.AcceptsXC | Model/Node.cs:87-110 | "XC" parses to 90 |
| RomanNumeral.AcceptsCD | Model/Node.cs:87-110 | "CD" parses to 400 |
| RomanNumeral.AcceptsCM | Model/Node.cs:87-110 | "CM" parses to 900 |
| RomanNumeral.AcceptsXIV | RomanNumeral.cs:12-27 | "XIV" parses to 14 |
| RomanNumeral.AcceptsXCIX | RomanNumeral.cs:12-27 | "XCIX" parses to 99 |
| RomanNumeral.AcceptsMMXXIV | RomanNumeral.cs:12-27 | "MMXXIV" parses to 2024 |
| RomanNumeral.RejectsIIII | Model/Node.cs:55-56 | "IIII" is rejected: a fourth repetition |
| RomanNumeral.RejectsVV | Model/Node.cs:52-53 | "VV" is rejected: a repeated V |
| RomanNumeral.RejectsLL | Model/Node.cs:52-53 | "LL" is rejected: a repeated L |
| RomanNumeral.RejectsVX | Model/Node.cs:94-95 | "VX" is rejected: V before a higher symbol |
| RomanNumeral.RejectsIL | Model/Node.cs:102-104 | "IL" is rejected: a ratio of 50 |
| RomanNumeral.RejectsIC | Model/Node.cs:102-104 | "IC" is rejected: a ratio of 100 |
| RomanNumeral.RejectsIM | Model/Node.cs:102-104 | "IM" is rejected: a ratio of 1000 |
| RomanNumeral.RejectsXD | Model/Node.cs:102-104 | "XD" is rejected: a ratio of 50 |
| RomanNumeral.RejectsXM | Model/Node.cs:102-104 | "XM" is rejected: a ratio of 100 |
| RomanNumeral.RejectsIXX | Model/Node.cs:49-50 | "IXX" is rejected: a repetition after a subtraction |
| RomanNumeral.RejectsIIX | Model/Node.cs:121-122 | "IIX" is rejected: subtracting a repeated symbol |
| RomanNumeral.RejectsIXI | Model/Node.cs:72-73 | "IXI" is rejected: a lower symbol equal to the left child |
| RomanNumeral.RejectsIXL | Model/Node.cs:126-127 | "IXL" is rejected: rotating a node that already has a left child |
| RomanNumeral.RejectsVIV | Model/Node.cs:134-135 | "VIV" is rejected: a rotation under a parent holding the new symbol |
| RomanNumeral.RejectsXIX | Model/Node.cs:134-135 | "XIX" is rejected: a rotation under a parent holding the new symbol |
| RomanNumeral.RejectsCXC | Model/Node.cs:134-135 | "CXC" is rejected: a rotation under a parent holding the new symbol |
| RomanNumeral.RejectsMCMXCIX | Model/Node.cs:134-135 | "MCMXCIX" is rejected: a rotation under a parent holding the new symbol (at MCM) |
| LegacySpine.Appended | Node.cs:37-86 | one append as a value: the root takes the first symbol; the same symbol fails on a left child or at 3 copies, else adds a copy; a lower one becomes the next node; a higher one rotates |
| LegacySpine.RotatedLeft | Node.cs:101-116 | the rotation as a value: it fails for a repeated node; otherwise the last node, with its whole chain, becomes the left chain of the new one |
| LegacySpine.Built | RomanNumber.cs:7-19 | the tree a symbol sequence builds from a fresh root, one append per symbol, None from the first failing append on |
| LegacySpine.ChainValue | Node.cs:88-99 | GetValue of a chain node: its weight minus the value of the chain below it |
| LegacySpine.EntryValue | Node.cs:88-99 | one spine node's share of GetValue: multiplier times weight, minus its chain |
| LegacySpine.Value | Node.cs:88-99 | GetValue of the subtree from a spine node: its share plus the value of the right subtree |
| LegacySpine.AppendedWellFormed | Node.cs:37-86 | every successful append keeps the looser invariant: 1 to 3 copies, a subtracted chain only under a single copy and strictly descending, each node starting below the one before |
| LegacySpine.AppendedSymbols | Node.cs:37-116 | every successful append adds exactly the appended symbol at the end of the in-order symbols |
| LegacySpine.SymbolsRepeated | Node.cs:55-56 | one more repetition adds one more copy of the node's symbol in order |
| LegacySpine.SymbolsRotated | Node.cs:111-115 | a rotation, which carries the node's whole left chain along, keeps the in-order symbols |
| LegacySpine.BuiltWellFormed | RomanNumber.cs:10-19 | every tree the earlier parser builds obeys the looser invariant |
| LegacySpine.BuiltSymbols | RomanNumber.cs:10-19 | the in-order symbols of a built tree are exactly the symbols consumed |
| LegacySpine.BuiltPrefix | RomanNumber.cs:10-19 | a prefix of an accepted input is accepted |
| LegacySpine.ChainValueBounds | Node.cs:88-99 | a descending subtracted chain is worth at least 0 and less than the symbol it hangs under, and at most its first symbol |
| LegacySpine.ValuePositive | Node.cs:88-99 | a well-formed tree is worth 0 when empty and more than 0 otherwise |
| LegacySpine.FlatValueIsClassic | Node.cs:88-99 | when no node subtracts more than one symbol, the value is the textbook reading of the symbols |
| LegacyNode.Node.Root | Node.cs:12-19 | the root has no symbol, multiplier 0 and no links |
| LegacyNode.Node.constructor | Node.cs:30-35 | a new node holds one copy of its symbol, points back to its parent and has no children |
| LegacyNode.Node.CreateRoot | Node.cs:25-28 | a fresh root is a valid empty tree whose last spine node is itself |
| LegacyNode.Node.Append | Node.cs:37-86 | appending to the last spine node succeeds exactly when LegacySpine.Appended does; then the tree is valid, stands for the appended spine, and the returned node is its last spine node, this node itself after a repeat |
| LegacyNode.Node.AppendSame | Node.cs:47-57 | the same symbol fails with a left child or at multiplier 3, and otherwise adds one repetition and returns this node |
| LegacyNode.Node.AppendLower | Node.cs:60-67 | a lower symbol always becomes the new last spine node; the right-child throw is never reached |
| LegacyNode.Node.AppendHigher | Node.cs:74-83 | a higher symbol hangs and rotates in, failing only when the rotation does; the right-child throw is never reached |
| LegacyNode.Node.AddRight | Node.cs:42-43 | a new right child of the last spine node becomes the last spine node with one copy of its symbol |
| LegacyNode.Node.HangRight | Node.cs:79-80 | the pending right child hangs off the last spine node without changing the tree it stands for |
| LegacyNode.Node.Repeated | Node.cs:55-56 | one more repetition of the last spine node, the rest unchanged |
| LegacyNode.Node.RepeatKeepsLinked | Node.cs:55-56 | one more repetition keeps the pointer structure |
| LegacyNode.Node.RotateLeft | Node.cs:101-116 | the rotation fails exactly for a repeated node; it relinks parent, node and new node as in LegacySpine.RotatedLeft, the node keeping its left chain; the no-parent throw is never reached |
| LegacyNode.Node.Relink | Node.cs:111-115 | the five pointer updates put the new node in the node's place under the parent, with the node and its chain as its left child |
| LegacyNode.Node.RelinkKeepsLinked | Node.cs:111-115 | the relinked tree is again a right spine, each node with a chain holding the rotated spine |
| LegacyNode.Node.PushKeepsLinked | Node.cs:65-66 | a new last spine node keeps the pointer structure |
| LegacyNode.Node.GetValue | Node.cs:88-99 | the recursive value of the root is LegacySpine.Value of the tree; of a spine node, the value of the entries from it on; of a chain node, the alternating value of its chain |
| RomanNumber.Parsed | RomanNumber.cs:5-22 | the outcome of the earlier Parse: None when a character names no symbol or an append fails, otherwise the value of the built tree |
| RomanNumber.Parse | RomanNumber.cs:5-22 | the character loop over the earlier Node returns exactly Parsed: None as soon as a character or an append fails, otherwise the root's value |
| RomanNumber.RejectedPrefix | RomanNumber.cs:10-19 | a string with a rejected prefix is rejected |
| RomanNumber.Feed | RomanNumber.cs:15 | one append on the tree the earlier characters built fails exactly when the longer prefix builds no tree, and then the whole string is rejected; otherwise the tree is the one that prefix builds |
| RomanNumber.ParsedPositive | RomanNumber.cs:5-21 | the empty string is 0 and every other accepted string is positive |
| RomanNumber.ParsedIsClassicWhenFlat | RomanNumber.cs:21 | when no node subtracts more than one symbol, the value is the textbook reading of the symbols |
| RomanNumber.ParsedIgnoresCase | RomanNumber.cs:13 | a string and its upper-case form parse alike |
| RomanNumber.ParsedBadCharacter | RomanNumber.cs:13-18 | a character that names no symbol fails the parse |
| RomanNumber.AcceptsEmpty | RomanNumber.cs:10-21 | "" parses to 0 |
| RomanNumber.AcceptsXIV | RomanNumber.cs:5-22 | "XIV" parses to 14 |
| RomanNumber.AcceptsMCMXCIX | RomanNumber.cs:21 | "MCMXCIX" parses to 1999 |
| RomanNumber.AcceptsXIX | Node.cs:101-116 | "XIX" parses to 19 |
| RomanNumber.AcceptsIXC | Node.cs:101-116 | "IXC" parses to 100 - (10 - 1) = 91: the rotation carries the left chain along |
| RomanNumber.AcceptsVV | Node.cs:47-57 | "VV" parses to 10 |
| RomanNumber.AcceptsVX | Node.cs:74-83 | "VX" parses to 5 |
| RomanNumber.AcceptsIM | Node.cs:74-83 | "IM" parses to 999 |
| RomanNumber.RejectsIIII | Node.cs:52-53 | "IIII" is rejected: a fourth repetition |
| RomanNumber.RejectsIIX | Node.cs:105-106 | "IIX" is rejected: subtracting a repeated symbol |
| Revisions.AppendedAgrees | Node.cs:37-86 | every append the current revision makes, the earlier one makes identically |
| Revisions.BuiltAgrees | RomanNumber.cs:10-19 | every tree the current revision builds, the earlier one builds identically |
| Revisions.ValueAgrees | Node.cs:88-99 | GetValue and GetDecimalValue agree on every current-revision tree |
| Revisions.ParsedAgrees | RomanNumber.cs:5-22 | the earlier parser accepts every string the current one accepts, with the same value |
| Revisions.OnlyEarlierAcceptsVV | Node.cs:47-57 | the converse fails: "VV" is 10 for the earlier parser and rejected by the current one |

## Left out

- Character mapping: .NET `Enum.TryParse` also accepts numeric strings as
  enum values (RomanNumeral.cs:20, RomanNumber.cs:13). The model maps only
  the seven letters, in either case.
- Exception types and messages: the single caller, `TryParse`, catches every
  exception, so all failures are one outcome, `None`.
- The unreachable `return null` at the end of both `Append`s, and the
  null-conditional `?.` in both drivers: the three comparison cases are
  exhaustive.
- 32-bit `int` overflow and recursion depth: values are unbounded integers
  and the value recursion has no depth limit. Both revisions accept inputs
  of any length. In the current one, "VIXVIX" is 28, and "M" followed by k
  copies of "DCM" is 1000 + 1400 * k: each D and C is a lower append, and
  each M rotates C under a parent D, which passes the check at
  `Model/Node.cs:134`. In the earlier one, "M" followed by repeated "CM"
  grows the same way. For large k the sums at `Model/Node.cs:149-153` and
  `Node.cs:93-97` wrap around, and the recursion of `GetDecimalValue` and
  `GetValue` goes one call deeper per spine node. A deep enough recursion
  overflows the stack, which the catch at `RomanNumeral.cs:42-46` cannot
  handle. `Spine.ValuePositive`, `LegacySpine.ValuePositive`,
  `RomanNumeral.ParsedPositive`, `RomanNumber.ParsedPositive` and the
  never-fails contract of `RomanNumeral.TryParse` hold for unbounded
  integers and unbounded recursion depth only.
- `ToString` (Model/Node.cs:157-160): display only.
- `Model/MaximumRepetitions.cs`: not wired into the code; the cap is the
  constant 3.
- The state left behind by a failed append: a rejected rotation leaves the
  new node attached as a pending right child. The `Append` contracts state
  only that nothing else changed, because the driver abandons the tree after
  any failure.
- Ghost parameters: the value functions of both node classes take the root
  as a ghost parameter, and the current one also takes the node's spine
  position and whether it is a left child, to name what the value of an
  inner node means. The source functions take no arguments.
