# NumberListImpl: a digit list in Dafny

`NumberListImpl` stores a non-negative integer as a doubly linked list of
digits in a fixed base (radix), most significant digit first. It is also a
`java.util.List<Byte>` of those digits. This project models the class: its
node structure, the list operations, and the numeral layer that converts
between the list, decimal text and other bases. The one defect found, in the
unchecked append that `changeScale` uses, is modelled both as written and
corrected (see "## Findings").

The model has four modules.

- `Numerals` (`numerals.dfy`): the arbitrary-precision integer layer on
  unbounded naturals.
  - `Value` reads a digit sequence by Horner's rule.
  - `Digits` and `Positional` expand a number into digits in a base.
  - `Render`, `DigitChar` and `CharValue` print digits and read them back.
  - `IsDecimal`, `DecimalValue` and `DecimalText` handle decimal text.
  - `Trim` follows Java's `String.trim`.
  - `And` is bitwise AND.
- `DigitSequences` (`digit_sequences.dfy`): what the container operations do,
  stated on plain sequences of digits:
  - searching from either end, filtering against a collection;
  - rotation, exchange, sortedness;
  - the accepted prefix of an insertion run.
- `NodeChains` (`node_chains.dfy`): the node class (`value`, `prev`, `next`)
  and the shape of a chain of nodes.
  - The ghost sequence `Nodes` lists the nodes head first.
  - The forward and backward links, distinctness and the digits held are
    stated over that sequence.
  - It holds the pointer-surgery lemmas for unlinking, splicing in, rotating
    and rewriting digits.
- `NumberLists` (`number_list.dfy`): the class `NumberListImpl`.
  - Real fields: `base`, `head`, `tail`, `size`.
  - Ghost state: `Nodes`, and `Contents`, the digits in order.
  - `Valid()` ties the two together.
  - Every list method is a `method` with `modifies` and `ensures` clauses
    that give the new `Contents` as a function of the old.
  - Every loop carries its invariants.
  - Exceptions become `Result`/`Outcome` values, with errors
    `IndexOutOfBounds` and `IllegalArgument`.

Two behaviours of the code are easy to miss; the model follows the code in
both.

- `additionalOperation` reads its argument's digits in the receiver's base,
  not in the argument's own base (line 207).
- `changeScale` of an empty list returns an empty list in the default base,
  not in the target base.

Constants:

- every publicly constructed list uses base 8 (`DEFAULT_BASE`);
- `changeScale` converts into base 10 (`TARGET_BASE`).

These are the values that `getRecordBookNumber() = 4317` selects from the
table of bases.

## Model

Source paths are relative to the repository root.

| member | source | states |
|---|---|---|
| NumberLists.NumberListImpl.constructor | src/main/java/ua/kpi/comsys/test2/implementation/NumberListImpl.java:59-64 | the default constructor gives a valid empty list in base 8 |
| NumberLists.NumberListImpl.WithBase | src/main/java/ua/kpi/comsys/test2/implementation/NumberListImpl.java:66-71 | the private constructor gives a valid empty list in the given base |
| NumberLists.NumberListImpl.FromString | src/main/java/ua/kpi/comsys/test2/implementation/NumberListImpl.java:109-121 | the String constructor gives base 8; digits are the base-8 expansion of the trimmed text's value when that text is a decimal literal, and empty otherwise; all its nodes are fresh |
| NumberLists.NumberListImpl.Load | src/main/java/ua/kpi/comsys/test2/implementation/NumberListImpl.java:115-120 | the rest of the String constructor once the text is trimmed: the digits of a decimal literal's value in the list's base, an empty list for anything else; all its nodes are fresh |
| NumberLists.NumberListImpl.CheckElementIndex | src/main/java/ua/kpi/comsys/test2/implementation/NumberListImpl.java:993-997 | passes exactly when `0 <= index < size`, otherwise raises IndexOutOfBounds |
| NumberLists.NumberListImpl.CheckPositionIndex | src/main/java/ua/kpi/comsys/test2/implementation/NumberListImpl.java:1008-1012 | passes exactly when `0 <= index <= size`, otherwise raises IndexOutOfBounds |
| NumberLists.NumberListImpl.NodeAt | src/main/java/ua/kpi/comsys/test2/implementation/NumberListImpl.java:943-958 | for a valid index, the node at that position, whether walked from the head or the tail; IndexOutOfBounds otherwise |
| NumberLists.NumberListImpl.Unlink | src/main/java/ua/kpi/comsys/test2/implementation/NumberListImpl.java:967-984 | removes node `k` from both node and digit sequences; the list stays valid and the node is fully detached; the list keeps only nodes it already had |
| NumberLists.NumberListImpl.LinkBefore | src/main/java/ua/kpi/comsys/test2/implementation/NumberListImpl.java:663-674 | a fresh node holding `d` is spliced in before position `k`, and the list stays valid |
| NumberLists.NumberListImpl.SplicedOut | src/main/java/ua/kpi/comsys/test2/implementation/NumberListImpl.java:967-984 | bridging the neighbours of node `k` both ways and updating head, tail and size restores validity |
| NumberLists.NumberListImpl.SplicedIn | src/main/java/ua/kpi/comsys/test2/implementation/NumberListImpl.java:663-674 | linking a new node both ways at position `k` restores validity |
| NumberLists.NumberListImpl.Rewritten | src/main/java/ua/kpi/comsys/test2/implementation/NumberListImpl.java:633-635 | rewriting digits in range without touching links keeps the list valid |
| NumberLists.NumberListImpl.RotatedOnceLeft | src/main/java/ua/kpi/comsys/test2/implementation/NumberListImpl.java:822-832 | moving the head node behind the tail keeps the list valid and its node set unchanged |
| NumberLists.NumberListImpl.RotatedOnceRight | src/main/java/ua/kpi/comsys/test2/implementation/NumberListImpl.java:841-851 | moving the tail node before the head keeps the list valid and its node set unchanged |
| NumberLists.NumberListImpl.AddDigitRaw | src/main/java/ua/kpi/comsys/test2/implementation/NumberListImpl.java:1021-1031 | corrected unchecked append: the digit is appended, linked both ways, and the list stays valid |
| NumberLists.NumberListImpl.AddDigitRawAsWritten | src/main/java/ua/kpi/comsys/test2/implementation/NumberListImpl.java:1021-1031 | unchecked append as written: the digit is appended and the forward chain is fine, but the new tail's `prev` is null, so with a previous digit the backward chain is broken |
| NumberLists.NumberListImpl.Add | src/main/java/ua/kpi/comsys/test2/implementation/NumberListImpl.java:406-424 | appends `e` when `0 <= e < base`; otherwise raises IllegalArgument and changes nothing |
| NumberLists.NumberListImpl.AddAt | src/main/java/ua/kpi/comsys/test2/implementation/NumberListImpl.java:650-675 | inserts `e` at `index` (`index == size` appends); IndexOutOfBounds is checked before the digit range; every node it adds is fresh and every other node was already the list's |
| NumberLists.NumberListImpl.InsertAt | src/main/java/ua/kpi/comsys/test2/implementation/NumberListImpl.java:663-674 | the in-range case of `add(index, e)`: `e` lands at `index` with every other digit kept in order; every node it adds is fresh |
| NumberLists.NumberListImpl.Get | src/main/java/ua/kpi/comsys/test2/implementation/NumberListImpl.java:608-611 | the digit at `index`, or IndexOutOfBounds |
| NumberLists.NumberListImpl.Set | src/main/java/ua/kpi/comsys/test2/implementation/NumberListImpl.java:625-637 | digit range is checked first, then the index; on success the old digit is returned and only that position changes; nodes are kept |
| NumberLists.NumberListImpl.RemoveAt | src/main/java/ua/kpi/comsys/test2/implementation/NumberListImpl.java:686-691 | removes and returns the digit at `index`, or raises IndexOutOfBounds and changes nothing; the list keeps only nodes it already had |
| NumberLists.NumberListImpl.Remove | src/main/java/ua/kpi/comsys/test2/implementation/NumberListImpl.java:434-448 | true exactly when `x` occurs; then the first occurrence (`FirstIndex`) is removed, otherwise nothing changes; the list keeps only nodes it already had |
| NumberLists.NumberListImpl.Swap | src/main/java/ua/kpi/comsys/test2/implementation/NumberListImpl.java:762-773 | true exactly when both indices are in range; then the two digits are exchanged; nodes stay in place |
| NumberLists.NumberListImpl.ShiftLeft | src/main/java/ua/kpi/comsys/test2/implementation/NumberListImpl.java:822-832 | digits become `RotatedLeft` of the old digits; the same nodes are reused |
| NumberLists.NumberListImpl.ShiftRight | src/main/java/ua/kpi/comsys/test2/implementation/NumberListImpl.java:841-851 | digits become `RotatedRight` of the old digits; the same nodes are reused |
| NumberLists.NumberListImpl.Clear | src/main/java/ua/kpi/comsys/test2/implementation/NumberListImpl.java:587-597 | leaves a valid empty list with every former node detached in both directions; needs only the forward chain; the list owns no node afterwards |
| NumberLists.NumberListImpl.Size | src/main/java/ua/kpi/comsys/test2/implementation/NumberListImpl.java:302-304 | the number of digits |
| NumberLists.NumberListImpl.IsEmpty | src/main/java/ua/kpi/comsys/test2/implementation/NumberListImpl.java:312-314 | true exactly when there are no digits |
| NumberLists.NumberListImpl.Contains | src/main/java/ua/kpi/comsys/test2/implementation/NumberListImpl.java:324-337 | true exactly when `x` is among the digits |
| NumberLists.NumberListImpl.IndexOf | src/main/java/ua/kpi/comsys/test2/implementation/NumberListImpl.java:701-712 | the first position of `x` (`FirstIndex`), or -1 |
| NumberLists.NumberListImpl.LastIndexOf | src/main/java/ua/kpi/comsys/test2/implementation/NumberListImpl.java:722-733 | the last position of `x` (`LastIndex`), or -1; walks backwards |
| NumberLists.NumberListImpl.ToArray | src/main/java/ua/kpi/comsys/test2/implementation/NumberListImpl.java:373-382 | a fresh array holding exactly the digits, in order |
| NumberLists.NumberListImpl.Equals | src/main/java/ua/kpi/comsys/test2/implementation/NumberListImpl.java:281-294 | true exactly when the other list exists and holds the same digits in the same order; bases are not compared |
| NumberLists.NumberListImpl.ContainsAll | src/main/java/ua/kpi/comsys/test2/implementation/NumberListImpl.java:457-463 | true exactly when every element of `c` is among the digits |
| NumberLists.NumberListImpl.AppendStep | src/main/java/ua/kpi/comsys/test2/implementation/NumberListImpl.java:476-479 | one round of `addAll(c)`: appends `c[i]` exactly when it is a digit of the base (a fresh tail), and changes nothing otherwise |
| NumberLists.NumberListImpl.AddAll | src/main/java/ua/kpi/comsys/test2/implementation/NumberListImpl.java:473-481 | false for empty `c`; otherwise appends the prefix of `c` before the first out-of-range digit, raising IllegalArgument when there is one; every node it adds is fresh and every other node was already the list's |
| NumberLists.NumberListImpl.AddAllAt | src/main/java/ua/kpi/comsys/test2/implementation/NumberListImpl.java:494-524 | false for empty `c` (before the index check), then IndexOutOfBounds; otherwise the accepted prefix of `c` is inserted at `index` and stays there even when a later digit raises IllegalArgument; every node it adds is fresh and every other node was already the list's |
| NumberLists.NumberListImpl.InsertBefore | src/main/java/ua/kpi/comsys/test2/implementation/NumberListImpl.java:500-523 | the insertion loop of `addAll(index, c)`: inserts in front of node `k` the digits of `c` before the first one outside the base, and returns how many (`FirstOutOfRange`); every node it adds is fresh and every other node was already the list's |
| NumberLists.NumberListImpl.InsertStep | src/main/java/ua/kpi/comsys/test2/implementation/NumberListImpl.java:503-522 | one iteration of that loop extends the inserted prefix by one digit; the only node it can add is the fresh node it links in front of `next` |
| NumberLists.NumberListImpl.Sift | src/main/java/ua/kpi/comsys/test2/implementation/NumberListImpl.java:534-579 | the walk shared by removeAll and retainAll: digits become `Filter(old, c, retain)`, and the result is true exactly when some digit was rejected; the list keeps only nodes it already had |
| NumberLists.NumberListImpl.SiftStep | src/main/java/ua/kpi/comsys/test2/implementation/NumberListImpl.java:538-547 | one visited node is kept or unlinked by the membership test, and the list stays valid |
| NumberLists.NumberListImpl.RemoveAll | src/main/java/ua/kpi/comsys/test2/implementation/NumberListImpl.java:534-549 | removes exactly the digits in `c`; true exactly when some digit was in `c`; the list keeps only nodes it already had |
| NumberLists.NumberListImpl.RetainAll | src/main/java/ua/kpi/comsys/test2/implementation/NumberListImpl.java:560-579 | removes exactly the digits not in `c`; true exactly when some digit was outside `c`; the list keeps only nodes it already had |
| NumberLists.NumberListImpl.LeastFrom | src/main/java/ua/kpi/comsys/test2/implementation/NumberListImpl.java:783-788 | the inner scan of the ascending sort: the first position at or after `i` of a least digit |
| NumberLists.NumberListImpl.GreatestFrom | src/main/java/ua/kpi/comsys/test2/implementation/NumberListImpl.java:803-808 | the inner scan of the descending sort: the first position at or after `i` of a greatest digit |
| NumberLists.NumberListImpl.SortAscending | src/main/java/ua/kpi/comsys/test2/implementation/NumberListImpl.java:780-793 | digits end ascending and are a permutation of the old digits; nodes stay in place |
| NumberLists.NumberListImpl.SortDescending | src/main/java/ua/kpi/comsys/test2/implementation/NumberListImpl.java:800-813 | digits end descending and are a permutation of the old digits; nodes stay in place |
| NumberLists.NumberListImpl.IsValidDecimal | src/main/java/ua/kpi/comsys/test2/implementation/NumberListImpl.java:867-875 | true exactly when the text is non-empty, has no leading minus, and is all '0'..'9' (`IsDecimal`) |
| NumberLists.NumberListImpl.ToBigInteger | src/main/java/ua/kpi/comsys/test2/implementation/NumberListImpl.java:924-932 | the digits read in base `b` by Horner's rule (`Value`) |
| NumberLists.NumberListImpl.ToDecimalString | src/main/java/ua/kpi/comsys/test2/implementation/NumberListImpl.java:230-236 | the stored number in decimal ("0" when empty); the text is a decimal literal denoting the stored number |
| NumberLists.NumberListImpl.ToString | src/main/java/ua/kpi/comsys/test2/implementation/NumberListImpl.java:248-264 | one character per digit ('0'..'9', then 'A'..); reading each character back gives the digit |
| NumberLists.NumberListImpl.FromDecimalString | src/main/java/ua/kpi/comsys/test2/implementation/NumberListImpl.java:880-897 | the list becomes the canonical base-`base` expansion of the literal's value (empty for zero) and denotes that value; all its nodes are fresh |
| NumberLists.NumberListImpl.AddPrinted | src/main/java/ua/kpi/comsys/test2/implementation/NumberListImpl.java:887-895 | one iteration of that loop: the `i`-th printed character is decoded to the `i`-th digit and appended |
| NumberLists.NumberListImpl.ChangeScale | src/main/java/ua/kpi/comsys/test2/implementation/NumberListImpl.java:167-187 | corrected changeScale (built with the corrected unchecked append): a fresh valid base-10 list holding the positional digits of the same number (base 8 and empty for an empty receiver); it denotes the receiver's number; all the result's nodes are fresh, so it shares none with the receiver |
| NumberLists.NumberListImpl.AddDigitPrinted | src/main/java/ua/kpi/comsys/test2/implementation/NumberListImpl.java:181-184 | one iteration of the corrected changeScale's loop: the `i`-th printed character is read back and appended with both links |
| NumberLists.NumberListImpl.ChangeScaleAsWritten | src/main/java/ua/kpi/comsys/test2/implementation/NumberListImpl.java:167-187 | changeScale as written: a fresh base-10 list (base 8 and empty for an empty receiver) whose forward chain holds the positional digits of the same number, but every node's `prev` is null, so the list is valid exactly when it has at most one digit; all the result's nodes are fresh, so it shares none with the receiver |
| NumberLists.NumberListImpl.AddDigitPrintedAsWritten | src/main/java/ua/kpi/comsys/test2/implementation/NumberListImpl.java:181-184 | one iteration of changeScale's loop as written: the `i`-th printed character is read back and appended forwards only, and every node keeps a null `prev` |
| NodeChains.Node.constructor | src/main/java/ua/kpi/comsys/test2/implementation/NumberListImpl.java:37-45 | a node holding the digit, with no `prev` and no `next` |
| Numerals.Trim | src/main/java/ua/kpi/comsys/test2/implementation/NumberListImpl.java:114 | `String.trim`: the result starts and ends with a character above U+0020, and is empty exactly when every character is at or below U+0020 |
| Numerals.TrimIsSlice | src/main/java/ua/kpi/comsys/test2/implementation/NumberListImpl.java:114 | `String.trim` removes only characters at or below U+0020, and only from the two ends: `s == p + Trim(s) + q` where every character of `p` and of `q` is at or below U+0020 |
| Numerals.PositionalLength | src/main/java/ua/kpi/comsys/test2/implementation/NumberListImpl.java:176-184 | a number prints with two or more digits in base `b` exactly when it is at least `b`: for those, the as-written changeScale result has a broken backward chain |
| NumberLists.NumberListImpl.AdditionalOperation | src/main/java/ua/kpi/comsys/test2/implementation/NumberListImpl.java:201-220 | a fresh list in the receiver's base: empty when an operand is missing or empty, otherwise the expansion of `And(receiver, arg read in receiver's base)`, empty when that is zero; all the result's nodes are fresh, so it shares none with the receiver |
| NodeChains.Unlinked | src/main/java/ua/kpi/comsys/test2/implementation/NumberListImpl.java:967-984 | after bridging node `k`'s neighbours, the nodes without `N[k]` form a distinct chain both ways, holding the digits without `C[k]` |
| NodeChains.Inserted | src/main/java/ua/kpi/comsys/test2/implementation/NumberListImpl.java:663-674 | after linking a new node in at `k`, the nodes with it inserted form a distinct chain both ways, holding the digits with `d` inserted |
| NodeChains.InsertedForward | src/main/java/ua/kpi/comsys/test2/implementation/NumberListImpl.java:1021-1031 | the same, forward links only: what the unchecked append as written still establishes |
| NodeChains.LeftRotated | src/main/java/ua/kpi/comsys/test2/implementation/NumberListImpl.java:822-832 | relinking the head behind the tail gives a distinct chain both ways, holding the left-rotated digits |
| NodeChains.RightRotated | src/main/java/ua/kpi/comsys/test2/implementation/NumberListImpl.java:841-851 | relinking the tail before the head gives a distinct chain both ways, holding the right-rotated digits |
| NodeChains.ValueSet | src/main/java/ua/kpi/comsys/test2/implementation/NumberListImpl.java:633-635 | overwriting one node's digit changes exactly that digit of the held sequence |
| NodeChains.ValuesSwapped | src/main/java/ua/kpi/comsys/test2/implementation/NumberListImpl.java:768-771 | exchanging two nodes' digits exchanges exactly those two digits of the held sequence |
| NodeChains.LinksKept | src/main/java/ua/kpi/comsys/test2/implementation/NumberListImpl.java:625-637 | unchanged links keep both chains |
| DigitSequences.FirstIndex | src/main/java/ua/kpi/comsys/test2/implementation/NumberListImpl.java:701-712 | -1 exactly when `x` is absent; otherwise a position holding `x` with no earlier `x` |
| DigitSequences.LastIndex | src/main/java/ua/kpi/comsys/test2/implementation/NumberListImpl.java:722-733 | -1 exactly when `x` is absent; otherwise a position holding `x` with no later `x` |
| DigitSequences.FilterMembers | src/main/java/ua/kpi/comsys/test2/implementation/NumberListImpl.java:534-579 | a digit survives removeAll/retainAll exactly when it occurs and passes the membership test |
| DigitSequences.FilterShortens | src/main/java/ua/kpi/comsys/test2/implementation/NumberListImpl.java:534-579 | filtering shortens the digits exactly when some digit is rejected (the `modified` result) |
| DigitSequences.FilterKeepsAll | src/main/java/ua/kpi/comsys/test2/implementation/NumberListImpl.java:535 | filtering that rejects nothing returns the digits unchanged (removeAll of an empty collection) |
| DigitSequences.FilterPartition | src/main/java/ua/kpi/comsys/test2/implementation/NumberListImpl.java:534-579 | removeAll(c) and retainAll(c) split the digits' multiset between them |
| DigitSequences.FilterStep | src/main/java/ua/kpi/comsys/test2/implementation/NumberListImpl.java:539-548 | one visited digit extends the filtered digits exactly when kept |
| DigitSequences.RightUndoesLeft | src/main/java/ua/kpi/comsys/test2/implementation/NumberListImpl.java:822-851 | shiftRight undoes shiftLeft |
| DigitSequences.LeftUndoesRight | src/main/java/ua/kpi/comsys/test2/implementation/NumberListImpl.java:822-851 | shiftLeft undoes shiftRight |
| DigitSequences.RotationsPermute | src/main/java/ua/kpi/comsys/test2/implementation/NumberListImpl.java:822-851 | both shifts keep the multiset of digits |
| DigitSequences.SwappedPermutes | src/main/java/ua/kpi/comsys/test2/implementation/NumberListImpl.java:762-773 | swap keeps the multiset of digits; swapping twice restores the order |
| DigitSequences.SelectLeast | src/main/java/ua/kpi/comsys/test2/implementation/NumberListImpl.java:781-792 | swapping position `i` with a least later digit settles one more digit of the ascending sort |
| DigitSequences.SelectGreatest | src/main/java/ua/kpi/comsys/test2/implementation/NumberListImpl.java:801-812 | swapping position `i` with a greatest later digit settles one more digit of the descending sort |
| DigitSequences.AscendingUnique | src/main/java/ua/kpi/comsys/test2/implementation/NumberListImpl.java:780-793 | one multiset of digits has exactly one ascending arrangement, so sortAscending's result is determined |
| DigitSequences.DescendingIsReversedAscending | src/main/java/ua/kpi/comsys/test2/implementation/NumberListImpl.java:780-813 | sortDescending gives sortAscending's result reversed |
| DigitSequences.ReversedPermutes | src/main/java/ua/kpi/comsys/test2/implementation/NumberListImpl.java:800-813 | reversing keeps the multiset of digits |
| DigitSequences.FirstOutOfRange | src/main/java/ua/kpi/comsys/test2/implementation/NumberListImpl.java:503-507 | the first position whose digit fails the range check, with every digit before it in range |
| Numerals.ValueOfDigits | src/main/java/ua/kpi/comsys/test2/implementation/NumberListImpl.java:885-895 | reading back the base-`b` expansion gives the number |
| Numerals.DigitsCanonical | src/main/java/ua/kpi/comsys/test2/implementation/NumberListImpl.java:885-895 | the expansion's digits are below the base, with no leading zero |
| Numerals.DigitsOfValue | src/main/java/ua/kpi/comsys/test2/implementation/NumberListImpl.java:924-932 | re-expanding the value of a canonical digit sequence gives the same digits |
| Numerals.CanonicalValuePositive | src/main/java/ua/kpi/comsys/test2/implementation/NumberListImpl.java:883 | a non-empty canonical digit sequence has a positive value |
| Numerals.ValueOfPositional | src/main/java/ua/kpi/comsys/test2/implementation/NumberListImpl.java:175-184 | reading back the digits `toString(b)` prints gives the number, zero included |
| Numerals.PositionalInRange | src/main/java/ua/kpi/comsys/test2/implementation/NumberListImpl.java:176-184 | the digits `toString(b)` prints are all below `b` |
| Numerals.ReadRender | src/main/java/ua/kpi/comsys/test2/implementation/NumberListImpl.java:888-894 | decoding each printed character gives the digit printed there |
| Numerals.CharValueOfDigitChar | src/main/java/ua/kpi/comsys/test2/implementation/NumberListImpl.java:255-259 | decoding a printed digit gives the digit |
| Numerals.DecimalRoundTrip | src/main/java/ua/kpi/comsys/test2/implementation/NumberListImpl.java:230-236 | decimal text is a valid decimal literal that denotes the number it was printed from |
| Numerals.DecimalTextOfValue | src/main/java/ua/kpi/comsys/test2/implementation/NumberListImpl.java:867-875 | a literal without a redundant leading zero is exactly the decimal text of its value |
| Numerals.DecimalRoundTripOfDigits | src/main/java/ua/kpi/comsys/test2/implementation/NumberListImpl.java:880-897 | toDecimalString followed by fromDecimalString in the same base reproduces canonical digits |
| Numerals.TrimStart | src/main/java/ua/kpi/comsys/test2/implementation/NumberListImpl.java:114 | drops exactly the leading characters at or below U+0020 |
| Numerals.TrimEnd | src/main/java/ua/kpi/comsys/test2/implementation/NumberListImpl.java:114 | drops exactly the trailing characters at or below U+0020 |
| Numerals.TrimDecimal | src/main/java/ua/kpi/comsys/test2/implementation/NumberListImpl.java:114-119 | a decimal literal is unchanged by trimming |
| Numerals.AndBit | src/main/java/ua/kpi/comsys/test2/implementation/NumberListImpl.java:209 | each bit of `And(a, b)` is set exactly when it is set in both |
| Numerals.BitsDetermine | src/main/java/ua/kpi/comsys/test2/implementation/NumberListImpl.java:209 | naturals that agree on every bit are equal |
| Numerals.AndCommutative | src/main/java/ua/kpi/comsys/test2/implementation/NumberListImpl.java:209 | AND is commutative |
| Numerals.AndIdempotent | src/main/java/ua/kpi/comsys/test2/implementation/NumberListImpl.java:209 | AND of a number with itself is that number |
| Numerals.AndBounded | src/main/java/ua/kpi/comsys/test2/implementation/NumberListImpl.java:209 | AND never exceeds either operand |

## Left out

- The File constructor and `saveList` (lines 81-100, 130-144): file I/O.
- `iterator`: iteration is left out; the list operations walk the nodes directly. `toArray(T[])`, both `listIterator`s and `subList` throw `UnsupportedOperationException`. (Lines 347-363, 391-393, 737-751.)
- `getRecordBookNumber` and the `BASES` table (lines 48, 152-156): replaced by the two bases they select, `DEFAULT_BASE = 8` and `TARGET_BASE = 10`.
- The `BigInteger` library is replaced by functions on unbounded naturals. `new BigInteger(decimal)` is `DecimalValue`. `toString(b).toUpperCase()` is `RadixText`. `and` is `And`. `Character.digit` is `CharValue`, which agrees with it on the characters `toString(10)` prints.
- The branch of `toBigInteger(List)` for lists other than `NumberListImpl` (lines 903-910): every list the class receives is a `NumberListImpl`. `additionalOperation`'s argument is modelled as a `NumberListImpl` or null.
- `instanceof` tests and null elements: arguments are modelled as digits, so the non-`Byte` branches of `contains`, `remove`, `indexOf` and `lastIndexOf` are not modelled. Neither are the `NullPointerException`s of `add` and `set`, nor a null String in the constructor.
- AddAll, AddAllAt: passing the list to itself is not modelled, because the collection is a snapshot `seq`. In the code, the list's own iterator (lines 347-363) can reach the nodes being added. `addAll(this)` with two or more digits never terminates. Neither does `addAll(i, this)` with `2 <= i <= size`. The model instead terminates, with the snapshot inserted. The other self-insertions agree with the snapshot.
- ChangeScaleAsWritten, AddDigitRawAsWritten: operations that walk backwards over a list built this way are not modelled. These are `lastIndexOf`, and `nodeAt` from the tail, which `get`, `set`, `remove(int)`, `toBigInteger` and `toDecimalString` rely on. Methods that walk backwards or rely on `prev` require `Valid()`, which covers both chains. Those methods are `LastIndexOf`, `NodeAt` and everything built on it (`Get`, `Set`, `RemoveAt`, `AddAt`, `AddAllAt`, `Swap`, the sorts, the shifts, `ToBigInteger`, `ToDecimalString`), plus every other mutator. `Contains`, `ContainsAll`, `IndexOf`, `ToArray`, `ToString`, `Clear`, `Size`, `IsEmpty`, `CheckElementIndex`, `CheckPositionIndex` and `Number` need only the forward chain (`Linked()`), so they also apply to a list built this way. Such a list satisfies `Valid()` only with at most one digit. In the code, `lastIndexOf` on it misses every digit but the last, and `nodeAt` past the middle reaches a null node.
- A null collection behaves as an empty one in `containsAll`, `addAll`, `removeAll` and `retainAll`. Collections are modelled as a `seq` or `set` of digits.
- Byte width: digits are `int`. Java's `& 0xFF` and `(byte)` casts do not change a digit of the base. For a Java `byte` argument, the range check `0 <= (e & 0xFF) < base` accepts exactly the values `0 <= e < base`, which is the test the model makes.
- `Equals` compares with another `NumberListImpl` or null, not with an arbitrary `List`.
- `Nodes` and `Contents` are ghost state: they describe the heap and are not part of the Java object.

## Findings

| source | as written | input that shows it | evidently intended | confidence | as-written member | corrected member |
|---|---|---|---|---|---|---|
| src/main/java/ua/kpi/comsys/test2/implementation/NumberListImpl.java:1021-1031 | `addDigitRaw` links the new tail forwards but never sets its `prev` | `changeScale` on a list whose number has two or more decimal digits, e.g. digits [1, 2] in base 8 (ten): the result [1, 0] has `tail.prev == null`, so `lastIndexOf(1)` walking back from the tail returns -1 | set `newNode.prev = tail` as `add` does, keeping the backward chain | not executed | NumberLists.NumberListImpl.AddDigitRawAsWritten | NumberLists.NumberListImpl.AddDigitRaw |
| src/main/java/ua/kpi/comsys/test2/implementation/NumberListImpl.java:181-184 | `changeScale` builds its result with that append, so no node of the result has a `prev` | any list whose number is at least ten, e.g. digits [1, 2] in base 8: the result [1, 0] is not backward-linked, which `ChangeScaleAsWritten` with `PositionalLength` proves | a result with both chains, as `add` would build | not executed | NumberLists.NumberListImpl.ChangeScaleAsWritten | NumberLists.NumberListImpl.ChangeScale |
