# Host lists, XML machines and linked lists

This project models the parts of whatsup and the libraries bundled with it whose correctness rests on in-place
updates, and proves what they are for.

* **Range-compressed host lists** (`src/libcommon/hostlist.c`). A list of host names is an array of records (prefix, low
  and high number, print width, single host). `Hosts` defines the plain sequence of hosts such an array stands for,
  and every operation is proved against that sequence: pushing, popping, shifting, indexing, deleting, searching,
  sorting (with its splitting scan and its merging scan), removing duplicates, parsing, printing into a bounded
  buffer, and reading the printed text back. `HostlistTexts` and `HostlistWords` say what printed and accepted texts
  look like, in terms of names and characters. The comparator, the joins and the search rewrite print widths as they
  go; the modules prove that no name ever changes by it.
* **Machines of the bundled expat** (`src/libexpat`): CDATA sections fed in arbitrary pieces (`Cdata`, `CdataParser`,
  with `CdataText` for what is delivered), the content-model recogniser with its level counter and connector array
  (`ContentModel`, `ContentParser`, with `ContentLaws` for short declarations token by token), the symbol table
  (`HashTable`), the string pool (`StringPool`), namespace bindings (`Namespaces`, `NamespaceLaws`), character
  references and the UTF converters (`Unicode`, `Charref`, `Utf`). The 8-bit instantiation and the build without
  `XML_DTD` are modelled.
* **Linked lists with live iterators** (`src/libcommon/list.c`): `Lists` and `ListSorting`. A pointer to a pointer is a
  slot: the head of the list or the next field of a node.
* **Linked merge sort** (`libltdl/slist.c`): `SLists`.

`Seqs`, `Options`, `Bytes`, `Decimal` and `StableSorting` hold what several modules share.

## How to read it

A method models a function of the source, with its loops and its updates; its `ensures` ties the new state to a
specification function over plain values, and lemmas say what that function means. `Sound`, `Valid` and `Bound` are the
invariants every operation keeps. Ghost parameters (`hs`, `cs`, `items`, `all`) name things the program does not hold.

Sorting and removing duplicates rest on one condition that can be read off a list before the call: its ranges agree,
that is, any two numbered ranges of one prefix either can be combined or are apart in host order (`Agreement`). `Sort`
and `Uniq` deliver ordered hosts exactly then. On other lists sorting either fails the source's assertion that
neighbours are in comparator order, which the model reports as `ok == false`, or ends in disorder; no host is lost.

A host is a prefix with a number and a printed length, or a bare name. Different hosts can have one name: f[01-02] and
f0[1-2] both hold f01. Removing duplicates removes repeated hosts, not repeated names; `HostlistNames` says exactly
when names repeat, which needs a prefix or bare name that ends in a digit.

For linked lists with iterators, `ListSteps` says what each call does as a relation between states, and `ListRuns` puts
all calls together: over every run, with any number of live iterators, none returns a node twice or after its removal,
and none misses a node that stays.

Notes on the source, where code and expectation differ:

* Two widths are compared as pointers at the start of the width check (`src/libcommon/hostlist.c:419-449`), so the
  shortcut is never taken for two records; the model has no such branch.
* A push returns the number of hosts in the whole list, not the number pushed (`src/libcommon/hostlist.c:1130-1162`).
* Deleting position `nhosts` passes the assertion, deletes nothing and still lowers the count: see `DeleteNth`.
* The branch of the coalescing scan for an emptied left range cannot be reached once the pieces are those of an
  overlap; the model asserts this.
* Converting UTF-8 to UTF-16 never returns when one slot is left in front of a character that needs two: see
  `Utf.ToUtf16`.
* Sorting a list of fewer than two items does not reset its iterators (`src/libcommon/list.c:411-438`).

## Model

| member | source | states |
|---|---|---|
| Decimal.PrintedAgreesUpward | src/libcommon/hostlist.c:419-449 | two field widths that print a number alike print every larger number alike; this is why combining widths is safe |
| Decimal.ValueOfFormat | src/libcommon/hostlist.c:1031-1051 | reading the printed form of a number gives the number back, whatever the width |
| Decimal.FormatOfValue | src/libcommon/hostlist.c:896-985 | a digit string is the width-w print of its own value exactly when that print has its length |
| HostlistTexts.PlainNumeral | src/libcommon/hostlist.c:1031-1051 | without padding a number is its decimal digits, the last one least |
| HostlistTexts.PaddedNumeral | src/libcommon/hostlist.c:1031-1051 | a width up to the number of digits changes nothing, each further one puts a zero in front |
| Hosts.FirstDifference | src/libcommon/hostlist.c:719-729 | of two texts that differ, the one with the smaller character at the first difference compares as smaller |
| Hosts.BeginningFirst | src/libcommon/hostlist.c:719-729 | a text compares as smaller than the longer ones that begin with it |
| Hosts.StrCmpIsDictionary | src/libcommon/hostlist.c:719-729 | the comparison of prefixes is negative exactly for texts in the order of a dictionary |
| Hosts.HostOrderTotal | src/libcommon/hostlist.c:696-729 | the order (prefix, single before numbered, printed length, number) is total, antisymmetric and transitive |
| Hosts.CompareIsPrior | src/libcommon/hostlist.c:696-729 | that order written out, without the comparator: earlier prefix, then bare name before number, then shorter print, then smaller number |
| Hosts.OrderedIsAscending | src/libcommon/hostlist.c:696-729 | ordered by the comparator is ascending in that sense |
| Hosts.RunConcat | src/libcommon/hostlist.c:868-891 | a run of numbers may be cut anywhere |
| Hosts.RunRewidth | src/libcommon/hostlist.c:419-449 | a width that prints the low end alike gives the same run of names |
| Hosts.ExpandSplit | src/libcommon/hostlist.c:1182-1242 | cutting the range array around a slot cuts the plain sequence of hosts there |
| Hosts.CombineKeepsHosts | src/libcommon/hostlist.c:754-760 | combining the widths of two ranges changes no host of either |
| Hosts.ChainOrdered | src/libcommon/hostlist.c:1980-1997 | ranges that each end before the next begins stand for an ordered sequence |
| Hostranges.ZeroPadded | src/libcommon/hostlist.c:398-404 | the dividing loop counts exactly the zeros that printing with that width adds |
| Hostranges.CompareWidths | src/libcommon/hostlist.c:419-449 | answers whether the two records can share a width and rewrites the widths without changing what either prints |
| Hostranges.ComparatorIsHostOrder | src/libcommon/hostlist.c:696-708 | for suffixes and widths that fit an int the comparator has the sign of the order of first hosts |
| Hostranges.ComparatorBound | src/libcommon/hostlist.c:696-708 | the bound is exact: the comparator is right for all suffixes below B if and only if B is at most 2^31 |
| Hostranges.Cmp | src/libcommon/hostlist.c:696-708 | comparing may rewrite both widths but keeps the hosts, the low ends and the value of the comparison |
| Hostranges.CmpKeepsOrder | src/libcommon/hostlist.c:696-708 | nor does the rewriting change on which side of any third record a record is |
| Hostranges.DeleteHost | src/libcommon/hostlist.c:668-687 | taking out one number shrinks, empties or splits the range and leaves exactly the other hosts |
| Hostranges.PopHost | src/libcommon/hostlist.c:776-795 | gives the name of the last host and leaves the others, including the wrap of hi below zero |
| Hostranges.ShiftHost | src/libcommon/hostlist.c:798-818 | gives the name of the first host and leaves the others |
| Hostranges.Join | src/libcommon/hostlist.c:834-860 | a successful join unites the two sets of hosts, with both ranges as parts of the result; a refused one changes no host; the overlap is reported as an int has it |
| Hostranges.JoinCounts | src/libcommon/hostlist.c:834-860 | the report is right if and only if fewer than 2^31 hosts are shared |
| Hostranges.JoinMiscounts | src/libcommon/hostlist.c:834-860 | n[0-2147483647] joined with itself reports a negative number, which callers take for a refusal |
| Hostranges.Intersect | src/libcommon/hostlist.c:868-891 | fails exactly when the assertion on the order of the two does; else the common part is exactly the numbers both ranges have, and no host changes |
| Agreement.CombineChain | src/libcommon/hostlist.c:754-760 | in comparator order, what can be combined with its neighbour can be combined with its neighbour's neighbour |
| Agreement.CombineReads | src/libcommon/hostlist.c:419-449 | two ranges can be combined exactly when some width prints both as they are printed |
| Agreement.AgreesReads | src/libcommon/hostlist.c:1954-1974 | agreeing written out, without the comparator: different prefixes or kinds, one width for both, or the last name of one before the first of the other |
| Agreement.ChainBreaks | src/libcommon/hostlist.c:754-760 | out of order it cannot: f[1] and f[005] both go with f[100], but not with each other |
| Agreement.PartsAgree | src/libcommon/hostlist.c:2002-2050 | parts of ranges that agree (can be combined, or are apart in host order) agree |
| Agreement.AlikeAgree | src/libcommon/hostlist.c:1946-1951 | reordering ranges and rewriting their widths does not change whether they agree |
| Hostlists.Hostlist.Grow | src/libcommon/hostlist.c:1118-1124 | more slots, the same ranges |
| Hostlists.Hostlist.Place | src/libcommon/hostlist.c:1182-1217 | shifts the later ranges up by one slot and puts the new one in place |
| Hostlists.Hostlist.InsertRange | src/libcommon/hostlist.c:1182-1217 | the ranges with the new one inserted at n, whether or not the array had to grow |
| Hostlists.Hostlist.DeleteRange | src/libcommon/hostlist.c:1222-1242 | the ranges without the one at n |
| HostlistOps.PushAppends | src/libcommon/hostlist.c:1130-1162 | pushing, joined to the last range or not, appends the hosts of the range |
| HostlistWords.PushJoinsIff | src/libcommon/hostlist.c:1130-1162 | a push leaves the array one longer exactly when the last range and the new one could not be one range |
| HostlistOps.PushRange | src/libcommon/hostlist.c:1130-1162 | updates the array as the specification of a push says and returns the total count |
| HostlistOps.Pop | src/libcommon/hostlist.c:1667-1683 | removes and returns the last name of the plain sequence; the count stays its length |
| HostlistOps.Shift | src/libcommon/hostlist.c:1706-1728 | removes and returns the first name of the plain sequence |
| HostlistOps.Nth | src/libcommon/hostlist.c:1847-1867 | the n-th name of the plain sequence, or nothing |
| HostlistOps.Remains | src/libcommon/hostlist.c:668-687 | what is left of a range without one host: none, one or two well-formed ranges with exactly the others |
| HostlistOps.Replace | src/libcommon/hostlist.c:1870-1905 | a slot emptied, overwritten or split in two by array shifts |
| HostlistOps.DeleteAt | src/libcommon/hostlist.c:1870-1905 | removing a host inside range i removes exactly that position of the plain sequence |
| HostlistOps.DeleteNth | src/libcommon/hostlist.c:1870-1905 | removes position n; with n equal to the count nothing goes but the count drops, so the list stays sound exactly when n is smaller |
| HostlistOps.HostIterator.Advance | src/libcommon/hostlist.c:2276-2290 | moves the cursor by one position of the plain sequence |
| HostlistOps.HostIterator.Next | src/libcommon/hostlist.c:2314-2344 | over an unmodified list the calls return all names in order, each once, then nothing |
| HostlistOps.HostIterator.Reset | src/libcommon/hostlist.c:2246-2254 | the iteration begins again |
| HostlistSort.StoreKeepsBag | src/libcommon/hostlist.c:1946-1951 | storing two compared records back in either order, widths rewritten, keeps the hosts counted with repetitions |
| HostlistSort.Sunk | src/libcommon/hostlist.c:1946-1951 | a comparison that is not greater fixes the order although it mutated both records |
| HostlistSort.SunkOne | src/libcommon/hostlist.c:1946-1951 | exchanging after a greater comparison moves the record down and keeps the rest in order |
| HostlistSort.QSort | src/libcommon/hostlist.c:1954-1974 | some order of the same ranges, widths rewritten, in which no range compares greater than the next |
| HostlistCoalesce.PiecesKeepBag | src/libcommon/hostlist.c:2002-2050 | splitting an overlap into its pieces keeps every host, counted with repetitions |
| HostlistCoalesce.SplitKeepsOrder | src/libcommon/hostlist.c:2002-2050 | the pieces stay well formed and ordered by first host |
| HostlistJams.SplitParts | src/libcommon/hostlist.c:2002-2050 | every range after a split is part of one before it |
| HostlistJams.DisagreementJams | src/libcommon/hostlist.c:2002-2050 | among ranges in comparator order, two that do not agree are jammed: the first runs past the padded start of the second |
| HostlistJams.SplitKeepsJam | src/libcommon/hostlist.c:2002-2050 | wherever the scan splits, a jam stays |
| HostlistJams.JammedIsUnordered | src/libcommon/hostlist.c:2002-2050 | jammed ranges do not stand for hosts in order |
| HostlistSorting.PiecesSpread | src/libcommon/hostlist.c:2009-2045 | a split never increases the sum of hi - lo |
| HostlistSorting.SplitProgress | src/libcommon/hostlist.c:2009-2045 | each split lowers the measure (sum of hi - lo, position-weighted sum), so restarting the scan at the end terminates |
| HostlistSorting.InsertAll | src/libcommon/hostlist.c:2009-2045 | the inner loop inserts exactly the pieces between the two ends |
| HostlistSorting.Split | src/libcommon/hostlist.c:2009-2045 | the array after a split is the specified one |
| HostlistSorting.CoalescePair | src/libcommon/hostlist.c:2009-2045 | one turn settles the pair, splits it with progress, or ends in the failed assertion, which it never does when the ranges agree; a jam stays |
| HostlistSorting.SplitOverlaps | src/libcommon/hostlist.c:2002-2046 | the scan terminates with the same hosts, repetitions kept; no assertion fails and the hosts are in order if and only if the ranges agree |
| HostlistSorting.Coalesce | src/libcommon/hostlist.c:2002-2050 | the same after joining what runs on |
| HostlistSorting.CollapsePair | src/libcommon/hostlist.c:1980-1997 | joins two neighbours exactly when their numbers run on and their widths can be combined; otherwise the ranges stay as they are |
| HostlistSorting.Collapse | src/libcommon/hostlist.c:1980-1997 | whatever the ranges, the expansion is unchanged and no two neighbours are left that could be one range |
| HostlistSorting.Sort | src/libcommon/hostlist.c:1954-1974 | no assertion fails and the list stands for the ascending permutation of its hosts if and only if the ranges agree; ascending is said without the comparator; repetitions and count are kept in every case |
| HostlistWidths.CommonWidthIff | src/libcommon/hostlist.c:419-449 | one width per prefix exists if and only if any two ranges of a prefix can be combined |
| HostlistWidths.CommonWidthAgrees | src/libcommon/hostlist.c:1954-1974 | ranges with one width per prefix agree, so they are sorted |
| HostlistWidths.AgreeWithoutCommonWidth | src/libcommon/hostlist.c:1954-1974 | a list without a common width that agrees all the same: f[1-20] and f[005] |
| HostlistWidths.MixedWidthsBreakSorting | src/libcommon/hostlist.c:2002-2050 | a list that does not agree, whose first split leaves two neighbours on which the assertion fails |
| HostlistUniq.AttemptKeeps | src/libcommon/hostlist.c:2056-2069 | a join attempt keeps the set of hosts and the count right |
| HostlistUniq.AttemptAgrees | src/libcommon/hostlist.c:2056-2069 | a join attempt, successful or not, changes nothing in whether the ranges agree |
| HostlistUniq.AttemptDistinct | src/libcommon/hostlist.c:2056-2069 | when the two agree it leaves them united, or strictly apart and not joinable |
| HostlistUniq.UniqStep | src/libcommon/hostlist.c:2071-2092 | one turn of the loop, in the array |
| HostlistUniq.Uniq | src/libcommon/hostlist.c:2071-2092 | always keeps the set of hosts and the count; the result is strictly ascending, said without the comparator, if and only if the ranges agree, and then in maximal runs; then no name is left twice if and only if no two ranges are confusable |
| HostlistNames.ClashIff | src/libcommon/hostlist.c:2071-2092 | two different hosts of a list have one name if and only if two of its ranges are confusable: some name of one can be read as prefix and number of the other |
| HostlistNames.ClashNeedsDigit | src/libcommon/hostlist.c:2071-2092 | that takes a prefix or bare name that ends in a digit |
| HostlistUniq.NameTwice | src/libcommon/hostlist.c:2071-2092 | f[01-02],f0[1-2] stays as it is, with f01 in it twice under two prefixes |
| HostlistFind.HostPrefixEnd | src/libcommon/hostlist.c:457-464 | the last character that is not a digit |
| HostlistFind.CreateHostname | src/libcommon/hostlist.c:466-523 | splits off the digits a name ends with, unless their value is above 2^25 |
| HostlistFind.SuffixMatch | src/libcommon/hostlist.c:896-985 | a number of a range prints as the suffix exactly when the value is right and the widths can be combined |
| HostlistFind.HnWithin | src/libcommon/hostlist.c:896-985 | finds the one host of a range with this name, moving digits into the prefix as long as the range prefix is longer |
| HostlistFind.Find | src/libcommon/hostlist.c:1916-1941 | the answer is the first position the search can see, no name changes though widths may |
| HostlistFind.FindsFirst | src/libcommon/hostlist.c:1916-1941 | that is the first host of that name if and only if the trailing number is at most 33554432, or there is none, or it is a bare name |
| HostlistFind.AlwaysFindsFirst | src/libcommon/hostlist.c:1916-1941 | the search is right for a name in every list if and only if its trailing number is at most 33554432 |
| HostlistFind.FindsLargestNumber | src/libcommon/hostlist.c:1916-1941 | f33554432 is found in f[33554432] |
| HostlistFind.MissesLargeNumber | src/libcommon/hostlist.c:1916-1941 | f33554433 is not found in f[33554433] |
| HostlistFind.IndexIsFirst | src/libcommon/hostlist.c:1916-1941 | the reference answer is the first matching position, or -1 exactly when there is none |
| HostlistParse.NextTok | src/libcommon/hostlist.c:366-393 | cuts the text into its tokens one by one, separators inside brackets not counting |
| HostlistWords.WordEnds | src/libcommon/hostlist.c:366-393 | a blank, a comma or a tab behind a word ends it, and the rest is cut by itself |
| HostlistWords.SeparatorFirst | src/libcommon/hostlist.c:366-393 | separators in front do not matter |
| HostlistWords.NumberReads | src/libcommon/hostlist.c:1396-1434 | a number alone is a range of one, as wide as it is written |
| HostlistWords.SpanReads | src/libcommon/hostlist.c:1396-1434 | two numbers with a dash are a range as wide as the first is written, if they are in order and span at most 16384 numbers, counted modulo 2^64 |
| HostlistWords.FrontSkipped | src/libcommon/hostlist.c:1396-1434 | a blank or a plus sign in front of a number changes nothing but the width |
| HostlistWords.NoNumber | src/libcommon/hostlist.c:1396-1434 | a piece that does not begin with a number is refused |
| HostlistWords.NothingBehind | src/libcommon/hostlist.c:1396-1434 | so is a number with anything else behind it |
| HostlistParse.ParseRangeList | src/libcommon/hostlist.c:1443-1458 | all pieces parsed in order, or nothing when one is malformed or there are too many |
| HostlistParse.PushRangeList | src/libcommon/hostlist.c:1461-1469 | pushes the parsed ranges under the prefix |
| HostlistParse.AllSuffixedAdds | src/libcommon/hostlist.c:1472-1491 | a bracket with text behind it adds, in order, each of its numbers between the two texts |
| HostlistWords.SuffixFollows | src/libcommon/hostlist.c:1472-1491 | those names are the names of the bracket without the text behind it, each followed by that text |
| HostlistWords.ReadsSuffix | src/libcommon/hostlist.c:1498-1551 | a token with text behind its bracket, with the limit of 10240 ranges |
| HostlistWords.Unclosed | src/libcommon/hostlist.c:1498-1551 | an opening bracket without a closing one behind it is refused |
| HostlistWords.Unopened | src/libcommon/hostlist.c:1498-1551 | so is a closing bracket without an opening one |
| HostlistParse.PushRangeListWithSuffix | src/libcommon/hostlist.c:1472-1491 | the loops push exactly those bare names |
| HostlistParse.PushHost | src/libcommon/hostlist.c:1625-1647 | pushes one name, its trailing digits as a number when they can be split off |
| HostlistWords.WordReads | src/libcommon/hostlist.c:466-523 | a word is cut before its last digits; their value is the number and their count the width if the value is at most 33554432, otherwise the word is a bare name |
| HostlistParse.PushTokenText | src/libcommon/hostlist.c:1498-1551 | one token, with or without brackets, or a refusal |
| HostlistParse.Create | src/libcommon/hostlist.c:1498-1558 | a sound list of exactly the parsed ranges, or nothing for a malformed text |
| HostlistPrint.Snprintf | src/libcommon/hostlist.c:1031-1051 | writes the text or its first n - 1 characters and a terminator, nothing outside, and returns the full length |
| HostlistPrint.Numstr | src/libcommon/hostlist.c:1031-1051 | the numbers of a range exactly when they fit, otherwise a length of at least n |
| HostlistPrint.GetBracketedList | src/libcommon/hostlist.c:2139-2182 | one group of ranges that share a prefix, exactly when it fits |
| HostlistTexts.GroupIsMaximal | src/libcommon/hostlist.c:2139-2182 | a group takes in neighbours exactly as long as both are numbered and have one prefix |
| HostlistTexts.NumReads | src/libcommon/hostlist.c:1031-1051 | the numbers of a range: that of its one host, or the first and the last with a dash |
| HostlistTexts.GroupReads | src/libcommon/hostlist.c:2123-2182 | a group that stands for one host is printed as the name of that host, any other as its prefix and the numbers in brackets |
| HostlistPrint.AppendGroup | src/libcommon/hostlist.c:2184-2207 | one turn of the outer loop with its comma |
| HostlistPrint.RangedString | src/libcommon/hostlist.c:2184-2207 | returns the length of the full text, with the text in the buffer, exactly when it is smaller than n; otherwise -1; writes nothing from n on |
| HostlistTexts.OneHostText | src/libcommon/hostlist.c:2123-2207 | the text of a list of one host is the name of that host |
| HostlistTexts.ExampleText | src/libcommon/hostlist.c:2184-2207 | f1 to f3, f07, g and h5 are printed as f[1-3,07],g,h5 |
| HostlistTokens.TokensOfJoin | src/libcommon/hostlist.c:366-393 | token-like texts joined by commas are cut back into themselves |
| HostlistTokens.BracketTokenLike | src/libcommon/hostlist.c:366-393 | a bracketed group is one token |
| HostlistRoundTrip.ParseNum | src/libcommon/hostlist.c:1396-1434 | printed numbers of a range are parsed back exactly when the range has at most 16384 hosts |
| HostlistRoundTrip.ParseNums | src/libcommon/hostlist.c:1443-1458 | printed bracket contents are parsed back exactly when they fit the limits |
| HostlistRoundTrip.PushBracketText | src/libcommon/hostlist.c:1498-1551 | what a bracketed token does |
| HostlistReread.HostRangeName | src/libcommon/hostlist.c:1625-1647 | a bare name becomes a range with exactly that name, however it is split |
| HostlistReread.TextIsJoin | src/libcommon/hostlist.c:2184-2207 | the printed text is its groups joined by commas |
| HostlistReread.ReadGroups | src/libcommon/hostlist.c:1498-1551 | reading the groups in turn brings the hosts in turn |
| HostlistReread.PrintThenParse | src/libcommon/hostlist.c:2184-2207 | the printed text read back stands for the same sequence of names if and only if every bracket fits the limits, else it is rejected |
| HostlistDelete.DeleteHost | src/libcommon/hostlist.c:1826-1832 | deletes the position the search finds and reports it |
| HostlistDelete.Delete | src/libcommon/hostlist.c:1806-1822 | pops the parsed names one by one and deletes each; a malformed text changes nothing |
| HostlistDelete.DeleteEachBag | src/libcommon/hostlist.c:1806-1822 | each listed name takes away exactly one occurrence, as far as there is one |
| HostlistDelete.HostsetCreate | src/libcommon/hostlist.c:2395-2412 | a host set holds the set of the parsed hosts, strictly ascending, said without the comparator, if and only if the parsed ranges agree; then each name once if and only if none are confusable |
| Cdata.FirstUnit | src/libexpat/xmltok_impl.c:301-345 | the first token is the first unit of the remaining bytes, or says that its end has not arrived |
| Cdata.CdataSectionTok | src/libexpat/xmltok_impl.c:301-375 | data tokens are runs of whole plain units; closing marks, line ends and errors are recognised where they are |
| Cdata.ScanExtends | src/libexpat/xmlparse.c:1900-1988 | bytes that arrive later never change what has been read |
| Cdata.ScanMoves | src/libexpat/xmlparse.c:1900-1988 | reading the leftover bytes by themselves is reading on from their place |
| Cdata.FewLeft | src/libexpat/xmltok_impl.c:301-375 | an open section leaves at most three bytes, the beginning of one unit |
| Cdata.DoCdataSection | src/libexpat/xmlparse.c:1900-1988 | delivers the data of all units, line ends as line feeds, and stops at the closing mark, the error or the missing end |
| CdataText.ClosedExactly | src/libexpat/xmltok_impl.c:301-345 | a section is closed exactly by the first ]]> on a character boundary, with the position behind it; delivered are the whole characters in front of it, CR LF and lone CR as LF |
| CdataText.BadExactly | src/libexpat/xmltok_impl.c:301-375 | it is in error exactly at the first place where no character can be, before any closing mark |
| CdataText.OpenReads | src/libexpat/xmltok_impl.c:301-375 | of an open section whole characters are delivered, and what is left is the beginning of a character, or nothing, a CR, or one or two brackets |
| CdataText.EndInside | src/libexpat/xmlparse.c:1970-1988 | the input may not end there; an unfinished character is another error than an unclosed section |
| CdataText.LineEnds | src/libexpat/xmltok_impl.c:328-341 | fed to an open section with nothing left over, CR LF delivers what LF delivers |
| CdataText.LoneReturn | src/libexpat/xmltok_impl.c:328-341 | so does CR with any other byte behind it |
| CdataText.OtherChars | src/libexpat/xmltok_impl.c:301-375 | every other whole character is delivered as it is |
| CdataParser.StreamIsBatch | src/libexpat/xmlparse.c:877-954 | for every cutting into chunks the data, the closing point and any error position are those of one call, and at most three bytes are carried |
| CdataParser.Located | src/libexpat/xmlparse.c:1900-1988 | the loop started at the leftover bytes finds the outcome of everything fed |
| CdataParser.Copy | src/libexpat/xmlparse.c:956-989 | copies between buffers, or downward inside one |
| CdataParser.Parser.GetBuffer | src/libexpat/xmlparse.c:956-989 | makes room behind the pending bytes and keeps them, by moving down or growing |
| CdataParser.Parser.ParseBuffer | src/libexpat/xmlparse.c:936-954 | processes the bytes put behind the pending ones; the data, content, error and error position are those of all bytes fed, also after an accepted final call |
| CdataParser.Parser.KeepLeftover | src/libexpat/xmlparse.c:910-927 | keeps the unread tail of the caller's bytes |
| CdataParser.Parser.Process | src/libexpat/xmlparse.c:1883-1894 | the section processor, handing everything behind the closing mark to the content processor |
| CdataParser.Parser.Parse | src/libexpat/xmlparse.c:877-934 | after every call, an accepted final one included, the parser's data, content, mode, error and error position are those of all bytes fed so far, judged at once |
| CdataParser.Parser.FewPending | src/libexpat/xmlparse.c:877-934 | at most three bytes are pending between calls |
| ContentModel.ReadKeeps | src/libexpat/xmlrole.c:929-1124 | each accepted token adds exactly itself to the text read so far, which stays grammatical |
| ContentModel.ReadsModel | src/libexpat/xmlrole.c:929-1124 | the text of every grammatical model, to any depth, is accepted as that model |
| ContentModel.AcceptsExactly | src/libexpat/xmlrole.c:929-1124 | the accepted token strings are exactly the grammar's texts with white space between tokens |
| ContentLaws.BareDeclaration | src/libexpat/xmlrole.c:929-955 | without parentheses exactly EMPTY and ANY |
| ContentLaws.OneMember | src/libexpat/xmlrole.c:957-995 | one member is any of the five kinds of name, in parentheses with any of the four ends |
| ContentLaws.DataAlone | src/libexpat/xmlrole.c:997-1016 | #PCDATA alone may be followed by the plain or the starred end |
| ContentLaws.TwoMembers | src/libexpat/xmlrole.c:1086-1124 | two members stand with a comma or a bar between them |
| ContentLaws.DataAndElement | src/libexpat/xmlrole.c:997-1054 | #PCDATA and an element: a bar, an unmarked name and the starred end |
| ContentLaws.NoMixedConnectors | src/libexpat/xmlparse.c:2630-2639 | a comma and a bar in one group are refused, whatever follows |
| ContentLaws.SpaceAnywhere | src/libexpat/xmlrole.c:929-1124 | white space in front of any token makes no difference |
| ContentParser.PrologState.RoleElement1 | src/libexpat/xmlrole.c:929-955 | EMPTY, ANY or the first parenthesis |
| ContentParser.PrologState.RoleElement2 | src/libexpat/xmlrole.c:957-995 | behind the first parenthesis |
| ContentParser.PrologState.RoleElement3 | src/libexpat/xmlrole.c:997-1016 | behind #PCDATA |
| ContentParser.PrologState.RoleElement4 | src/libexpat/xmlrole.c:1018-1034 | a name of mixed content |
| ContentParser.PrologState.RoleElement5 | src/libexpat/xmlrole.c:1036-1054 | behind a name of mixed content |
| ContentParser.PrologState.RoleElement6 | src/libexpat/xmlrole.c:1056-1084 | a member of a group; the level counts opened groups |
| ContentParser.PrologState.RoleElement7 | src/libexpat/xmlrole.c:1086-1124 | behind a member; the level counts closed groups |
| ContentParser.PrologState.RoleDeclClose | src/libexpat/xmlrole.c:1189-1204 | the end of the declaration |
| ContentParser.Parser.OpenGroup | src/libexpat/xmlparse.c:2619-2629 | the connector array grows before its slot is written, so every access is inside it |
| ContentParser.Parser.Separate | src/libexpat/xmlparse.c:2630-2639 | fails exactly when the group already has the other connector |
| ContentParser.Parser.Token | src/libexpat/xmlparse.c:2619-2639 | handler, level and connectors follow the grammar reader token by token |
| ContentParser.Parser.Declaration | src/libexpat/xmlparse.c:2619-2639 | what has been read is a declaration of the grammar exactly when there was no error and the handler is back at the internal subset; the machine stays valid |
| ContentParser.Parser.ElementName | src/libexpat/xmlrole.c:911-927 | the next declaration starts with whatever level and connectors the last one left |
| ContentParser.Parser.Declarations | src/libexpat/xmlrole.c:911-1124 | any number of declarations on one machine: all are accepted exactly when each is in the grammar |
| HashTable.HashOf | src/libexpat/xmlparse.c:3660-3667 | the loop computes 33 h + c in an unsigned long |
| HashTable.PresentBeforeMiss | src/libexpat/xmlparse.c:3669-3724 | a stored name is met before the first empty slot on its path |
| HashTable.PlaceAtMiss | src/libexpat/xmlparse.c:3669-3724 | filling that empty slot adds the entry and disturbs no other |
| HashTable.NotFull | src/libexpat/xmlparse.c:3669-3724 | with fewer names than slots probing cannot go all the way round |
| HashTable.MaskIsRemainder | src/libexpat/xmlparse.c:3684-3690 | for a power of two, which every size is, masking is taking the remainder |
| HashTable.Search | src/libexpat/xmlparse.c:3684-3690 | finds the slot of the name, or proves it absent |
| HashTable.Rehash | src/libexpat/xmlparse.c:3691-3710 | every entry is reachable again in the larger array |
| HashTable.Table.Enlarge | src/libexpat/xmlparse.c:3691-3715 | doubling keeps the map, and the size a power of two |
| HashTable.Table.Lookup | src/libexpat/xmlparse.c:3669-3724 | refines a map: the entry of the name, or nothing, or a new entry and nothing else changed |
| HashTable.Iterator.Next | src/libexpat/xmlparse.c:3755-3764 | the next entry of the remaining slots |
| HashTable.EachEntryOnce | src/libexpat/xmlparse.c:3748-3764 | an iterator yields exactly the entries of the table, each once |
| StringPool.Pool.Grow | src/libexpat/xmlparse.c:3872-3927 | always leaves room, and keeps the string in progress and every finished string through each branch |
| StringPool.Pool.MoveTo | src/libexpat/xmlparse.c:3883-3893 | the string in progress moves to a larger block; finished strings stay where they are |
| StringPool.Pool.Reallocate | src/libexpat/xmlparse.c:3895-3904 | only a block without finished strings is reallocated |
| StringPool.Pool.Reuse | src/libexpat/xmlparse.c:3875-3882 | a cleared block is taken over |
| StringPool.Pool.AppendChar | src/libexpat/xmlparse.c:276-279 | the string in progress gains one character |
| StringPool.Pool.Chop | src/libexpat/xmlparse.c:272 | the string in progress loses its last character, the finished ones nothing |
| StringPool.Pool.Discard | src/libexpat/xmlparse.c:274 | the string in progress is dropped, the finished ones stay |
| StringPool.Pool.Finish | src/libexpat/xmlparse.c:275 | the finished string says what was in progress and will be kept |
| StringPool.Pool.Append | src/libexpat/xmlparse.c:3819-3833 | the string in progress gains the whole text |
| StringPool.Pool.CopyString | src/libexpat/xmlparse.c:3835-3844 | a finished copy with its terminator |
| StringPool.Pool.CopyStringN | src/libexpat/xmlparse.c:3846-3858 | a finished copy of n characters |
| StringPool.Pool.StoreString | src/libexpat/xmlparse.c:3860-3870 | text and terminator in progress |
| StringPool.Pool.Clear | src/libexpat/xmlparse.c:3777-3795 | all blocks become free, none is lost |
| Namespaces.InnermostIsEnv | src/libexpat/xmlparse.c:1830-1877 | the innermost live declaration of a prefix is its entry in the environment |
| NamespaceLaws.LastDeclares | src/libexpat/xmlparse.c:1830-1877 | in an element a prefix stands for what its last declaration there says |
| NamespaceLaws.Inherits | src/libexpat/xmlparse.c:1830-1877 | one that the element does not declare stands for what it stands for around it |
| NamespaceLaws.PrefixedName | src/libexpat/xmlparse.c:1787-1828 | a prefixed name becomes the declared name, the separator and the part behind the first colon |
| NamespaceLaws.UnprefixedName | src/libexpat/xmlparse.c:1787-1828 | one without a prefix becomes the declared default, the separator and the whole name, or stays as it is when the default is undeclared |
| Namespaces.Parser.AddBinding | src/libexpat/xmlparse.c:1830-1877 | declares a prefix in the environment, or undeclares the default |
| Namespaces.Parser.UndoLast | src/libexpat/xmlparse.c:1473-1481 | gives the prefix its earlier binding back |
| Namespaces.Parser.Unbind | src/libexpat/xmlparse.c:1473-1481 | undoes exactly the declarations of one tag |
| Namespaces.Parser.SetContext | src/libexpat/xmlparse.c:3354-3407 | the declarations of the implicit context are in force outside every element |
| Namespaces.Parser.ExpandName | src/libexpat/xmlparse.c:1787-1828 | the element's name is its namespace, as the environment has it, and its local part; an unbound one stays as it stands |
| Namespaces.Parser.StartTag | src/libexpat/xmlparse.c:1316-1398 | the declarations of the tag are in force on top of those around it, and its own name is expanded under them |
| Namespaces.Parser.OpenEmpty | src/libexpat/xmlparse.c:1406-1420 | inside the tag every prefix shows what the tag declares on top of what was in force |
| Namespaces.Parser.CloseEmpty | src/libexpat/xmlparse.c:1430-1438 | undoes exactly those declarations |
| Namespaces.Parser.EmptyTag | src/libexpat/xmlparse.c:1399-1443 | the name handed out is expanded under the tag's own declarations, and afterwards every prefix shows what it showed before |
| Namespaces.Parser.EndTag | src/libexpat/xmlparse.c:1444-1485 | restores the declarations around the element, or reports a mismatch |
| Namespaces.Parser.ShowsInnermost | src/libexpat/xmlparse.c:1830-1877 | in any well-nested run each prefix shows its innermost declaration in scope, and nothing else |
| Unicode.Utf8RoundTrip | src/libexpat/xmltok.c:1118-1152 | every scalar value is encoded in well-formed, shortest UTF-8 that decodes to it |
| Unicode.Utf16RoundTrip | src/libexpat/xmltok.c:1154-1169 | every scalar value is encoded in well-formed UTF-16 that decodes to it |
| Unicode.EncodingExamples | src/libexpat/xmltok.c:1118-1169 | the examples of RFC 3629 and RFC 2781 |
| Charref.CheckCharRefNumber | src/libexpat/xmltok.c:1100-1116 | accepts exactly the values that are Char |
| Charref.DigitReads | src/libexpat/xmltok_impl.c:1512-1550 | the sixteen digits, letters in either case, stand for 0 to 15 in turn |
| Charref.DigitsOnly | src/libexpat/xmltok_impl.c:1512-1550 | and nothing else is a digit |
| Charref.CharRefNumber | src/libexpat/xmltok_impl.c:1512-1550 | the value of the digits if and only if it is a Char, else -1 |
| Charref.NextDigit | src/libexpat/xmltok_impl.c:1512-1550 | no step of the accumulation overflows an int |
| Charref.Utf8Encode | src/libexpat/xmltok.c:1118-1152 | writes the UTF-8 bytes and their number, and nothing else |
| Charref.Utf16Encode | src/libexpat/xmltok.c:1154-1169 | writes the UTF-16 units and their number, and nothing else |
| Utf.PairBytes | src/libexpat/xmltok.c:517-532 | the plane arithmetic on a surrogate pair gives the UTF-8 bytes of its character |
| Utf.PutChar | src/libexpat/xmltok.c:475-536 | one turn of the conversion: exactly the bytes of the character, or nothing when they do not fit |
| Utf.WireReads | src/libexpat/xmltok.c:475-490 | unit k of UTF-16 text is its high byte times 256 and its low byte, whichever comes first |
| Utf.ToUtf8 | src/libexpat/xmltok.c:475-536 | converts whole characters for as long as the next one fits and stops in front of it |
| Utf.Deliver | src/libexpat/xmlparse.c:1945-1962 | the pieces delivered through any buffers of at least four bytes are the UTF-8 text of the whole input |
| Utf.ToUtf16 | src/libexpat/xmltok.c:282-318 | the exact units and nothing outside their slots; gets stuck if and only if one slot is left in front of a character that needs two |
| Lists.PlaceAfterInsert | src/libcommon/list.c:677-684 | what an insertion does to the fields of an iterator |
| Lists.PlaceAfterRemove | src/libcommon/list.c:712-719 | what a removal does to the fields of an iterator |
| Lists.ListIterator.RepairInsert | src/libcommon/list.c:677-684 | the repair keeps the iterator at its place, brings back no returned node and leaves out no other |
| Lists.ListIterator.RepairRemove | src/libcommon/list.c:712-719 | the same when any node goes |
| Lists.ListIterator.Advance | src/libcommon/list.c:575-589 | steps over the next node |
| Lists.List.NodeCreate | src/libcommon/list.c:655-686 | the node is linked in at the slot, tail and count exact, every live iterator repaired |
| Lists.List.NodeDestroy | src/libcommon/list.c:690-722 | the node behind the slot goes, tail and count exact, every live iterator repaired |
| Lists.List.CursorHolds | src/libcommon/list.c:683 | after any operation each iterator has pos equal to *prev or to the node behind it |
| Lists.List.Append | src/libcommon/list.c:296-307 | the item comes last; every iterator keeps what it has returned, at its place |
| Lists.List.Push | src/libcommon/list.c:445-456 | the item comes first; every iterator keeps what it has returned, at its place |
| Lists.List.Pop | src/libcommon/list.c:460-470 | the first item goes; every iterator keeps what it has returned, at its place |
| Lists.List.DeleteAll | src/libcommon/list.c:348-374 | exactly the selected nodes go, counted, the others keep their order; every iterator keeps what it has returned |
| Lists.LeftMembers | src/libcommon/list.c:348-374 | what is left are exactly the nodes that are not selected |
| Lists.LeftInOrder | src/libcommon/list.c:348-374 | in their order |
| Lists.SweptNext | src/libcommon/list.c:348-374 | and goes on with the first node left behind those it had passed |
| Lists.List.IteratorCreate | src/libcommon/list.c:517-534 | a new iterator before the first item |
| Lists.List.IteratorReset | src/libcommon/list.c:538-548 | the iterator begins again |
| Lists.List.IteratorDestroy | src/libcommon/list.c:552-571 | only that iterator is taken off the list |
| Lists.List.Next | src/libcommon/list.c:575-589 | the next item in the list as it now is, never one returned before; at the end none of those in the list at the last reset has been left out |
| Lists.List.Insert | src/libcommon/list.c:593-605 | a new item at the iterator, which will not return it; every iterator keeps what it has returned, at its place |
| Lists.List.Remove | src/libcommon/list.c:623-635 | the item returned last goes, once; every iterator keeps what it has returned, at its place |
| ListRuns.Run | src/libcommon/list.c:296-722 | any calls in any order on a list with any number of iterators: each does to nodes, iterators and places exactly what it is for and gives its answer, and the record of what was returned and removed is lawful |
| ListRuns.EmptyLogTells | src/libcommon/list.c:517-534 | a list without iterators can be the start of a run |
| ListRuns.NextDiffers | src/libcommon/list.c:575-589 | in a run two answers of one iterator are different nodes unless it began again in between |
| ListRuns.TakenStaysAway | src/libcommon/list.c:690-722 | in a run a node that a call took out is no later call's answer |
| ListRuns.NeverTwice | src/libcommon/list.c:575-589 | in a lawful record no iterator returns a node twice unless it began again in between |
| ListRuns.NeverRemoved | src/libcommon/list.c:690-722 | nor does any iterator return a node that has been removed, whoever removed it |
| ListRuns.MissesNone | src/libcommon/list.c:575-589 | and one that has come to the end has returned every node it began with, but for those removed meanwhile |
| StableSorting.SameLikesPermutes | src/libcommon/list.c:400-441 | keeping equal elements in order is being a permutation |
| StableSorting.MoveKeepsLikes | src/libcommon/list.c:411-430 | moving an element in front of greater ones is stable |
| ListSorting.MoveBefore | src/libcommon/list.c:419-424 | the relinking through pointers to pointers moves exactly one node |
| ListSorting.FindPlace | src/libcommon/list.c:416-418 | the slot of the first greater node |
| ListSorting.SortStep | src/libcommon/list.c:414-430 | one more node in order, equal ones as they were, both slots right |
| ListSorting.Sort | src/libcommon/list.c:400-441 | the same nodes in ascending stable order, tail at the last one; every iterator begins again, or, with fewer than two items, is exactly as it was |
| SLists.Concat | libltdl/slist.c:142-158 | the nodes of both chains in order |
| SLists.Reverse | libltdl/slist.c:223-237 | the nodes in reverse order |
| SLists.ReversedAt | libltdl/slist.c:223-237 | position k of the reverse is position k from the end |
| SLists.Remove | libltdl/slist.c:78-112 | the first matching node goes and the rest stay linked |
| SLists.Merge | libltdl/slist.c:273-297 | the chain of the merged sequence, by relinking |
| SLists.MergedSorted | libltdl/slist.c:273-297 | merging sorted sequences gives a sorted one |
| SLists.MergedStable | libltdl/slist.c:273-297 | merging keeps equal items in order, left ones first |
| SLists.Halve | libltdl/slist.c:318-330 | cuts the chain into two non-empty shorter ones, so the recursion ends |
| SLists.Sort | libltdl/slist.c:307-336 | the same items in ascending stable order |

## Left out

- Hostlists.Hostlist: a slot of the array holds its record by value; the source holds a pointer to a record that only
  that slot owns. Pointer identity of records, and an iterator's cached record pointer, are therefore not modelled.
- HostlistSort.QSort: the library's qsort is represented by an insertion sort with the same comparator; later proofs use
  only its outcome, that no range compares greater than the next.
- HostlistSorting.Sort: stated for numbers and widths that fit an int, since a split makes any number of a range a low
  end that is compared; `ComparatorBound` says why. The model ends where an assertion of the source fails; a build
  without assertions goes on from there and is not modelled.
- HostlistUniq.Uniq: stated for low ends, widths and sizes of single ranges that fit an int; `ComparatorBound` and
  `JoinMiscounts` show what happens otherwise.
- Hostranges.Join: needs low ends and widths that fit an int, and its callers keep the order it asserts.
- HostlistOps.PushRange: the number of hosts in a list is unbounded; the source keeps it in an int.
- HostlistParse.Create: a text with a number of 2^64 - 1 makes a record that counts as empty; such texts are outside
  its precondition.
- HostlistParse.PushRangeListWithSuffix: brackets inside a suffix are kept literally, as the code keeps them.
- HostlistOps.HostIterator.Next: over a list that is not modified meanwhile; removal through an iterator and the repair
  of iterators when a name is shifted off are not modelled.
- HostlistFind.Find: exact for trailing numbers up to 2^25; `FindsFirst` gives the condition in both directions.
- HostlistReread.PrintThenParse: for prefixes without separators and brackets and names that are not empty.
- CdataParser.Parser.Process: the content processor is represented by one that takes all it is given.
- Cdata.DoCdataSection: character data is delivered as the input's own bytes; conversion to another internal encoding
  is the subject of `Utf.Deliver`.
- ContentParser.Parser.OpenGroup: the level and the array size are unbounded; the source keeps both in an unsigned int.
- HashTable.Table.Lookup: keys are strings without a zero character.
- StringPool.Pool.Append: the conversion into the pool copies one character for each input byte.
- Namespaces.Parser.StartTag: with a start handler set; every binding is a fresh record, free lists are not modelled.
- Namespaces.Parser.EmptyTag: with a start or end handler set.
- Namespaces.Parser.ExpandName: the name is a string of its own; the source writes the local part behind the namespace
  in the binding's buffer and restores it at the end tag.
- Namespaces.Parser.SetContext: takes the declarations of a context, not its text, and no entity entries.
- Utf.ToUtf8: for well-formed UTF-16, which the tokenizer has checked; bit operations on disjoint bits are written as
  arithmetic.
- Lists.List.NodeCreate: allocation gives a fresh node; a freed node's address is not used again.
- Inserting into a host set, popping and shifting whole ranges, the unbracketed print form, the other host list parser:
  not modelled.
- Fixed scratch buffers of the host list parser (`cur_tok`, `host`, `suffix`): strings are unbounded.
- Mutexes, magic numbers, running out of memory, the destruction of lists, tables and pools.
- Of expat: column numbers, event handlers, entities, encoding detection, attribute storage.
- `list_find`, `list_for_each`, `slist_find`, `slist_foreach`, `slist_nth`, `slist_length` and boxes: easy members.
- Configuration files, file descriptors, plugin loading, the node-updown backends: input and output.
