# WvStreams: verified models

This project models the hard parts of WvStreams and of the GNU argp copy that comes with it, and proves what they are
for.

* **Argument parser** (`ArgpModel`, `ArgpLookup`, `ArgpTwoPass`, `ArgpWriting`, `ArgpExchange`, `ArgpState`,
  `ArgpParser`, `ArgpGroups`, `ArgpInputs`). `Parser` is the state machine of argp-parse.c over `next`,
  `first_nonopt`, `last_nonopt`, `nextchar`, `args_only` and `quoted`, with `argv` permuted in place. User parsers are
  an arbitrary function from the number of the call to an answer, which may move `next`. `Scan` is the simple meaning
  of an argv: one pass that separates the options from the operands. A complete run delivers what `Scan` finds, and
  leaves argv in that order; and `Scan` finds the options, values and operands that any argv was written from. Every
  child argp is initialised with the input that its parent in the tree left for it.
* **Help lists and usage patterns** (`ArgpHol`, `ArgpUsage`, `ArgpCluster`). Which entry owns a short letter after lists
  have been appended to each other, and that the parser picks the same option; the counter that steps through all
  alternative operand lines; the order of clusters.
* **SSL bounce buffers** (`SslBounce`). SSL_write and SSL_read answer arbitrarily at every call.
* **Configuration files** (`ConfModel`, `ConfLookup`, `ConfRoundTrip`, `WvConfs`). Inheritance chains that may be
  cyclic, and saving and loading.
* **D-Bus** (`DBusAuth`, `DBusPending`, `DBusServer`). The authentication of both ends over streams cut into arbitrary
  pieces, pending replies with their timeouts, and the name table and routing of the server. `DBusPending.PendingTable`
  is the part of WvDBusConn about pending replies, `DBusAuth.WvDBusConn` the part about the handshake and the queue.
* **Counter mode and the linked list** (`CounterMode`, `WvLists`).
* `Optional`, `Slices`, `Sets`, `Text` and `Decimals` hold what several of these share.

Where the code does something else than its comments say, or than one would hope for, the model follows the code:

* `hol_cluster_cmp` (wvstreams/argp/argp-help.c:690-693) climbs from the cluster that is closer to the root, not from the
  deeper one. For clusters of different depth it follows a null parent; the order is proved for all clusters of equal
  depth, which are exactly those it can compare (`ClusterCmp`). The order also rests on clusters with the same parent
  having different groups or indexes. A child without a group or header merges its own children's clusters into the
  cluster it is in, so that this can fail (`MergedChildrenMayClash`); `ClustersOf` says for exactly which trees it holds.
* Accepting ARGP_KEY_ARGS always sets `next` to the end of argv (wvstreams/argp/argp-parse.c:785-789), also where the
  user parser has moved `next`; the comment there says otherwise.
* A user parser that refuses an operand after moving `next` can bring `next` to argc + 1 (`AcceptanceCanOvershoot`). This
  happens exactly if a refused ARGP_KEY_ARGS call sets `next` to argc and no later call moves it again
  (`OvershootIfAndOnlyIf`); then args_processed counts one operand too many, and otherwise it counts the operands exactly
  (`ParseNext`). All accesses stay within argv for all user parsers.
* A level of the usage counter is a char, taken to be signed: with more than 128 alternative lines in one argp of the
  tree no carry ever comes out of it, and the usage loop does not end; it ends after exactly as many patterns as there
  are combinations if and only if no argp has more (`NeverCarries`, `LoopEndsIfAndOnlyIfFits`, `OneArgpNeverEnds`).
* `calc_sizes` counts the short options of an argp only up to the first option that is not short, and `convert_options`
  records all of them, if ARGP_LONG_ONLY asks for them (wvstreams/argp/argp-parse.c:448-454 and 536-540). The space for
  the letters is enough exactly if in every option vector the short options come before all others (`LettersFit`).
* `find_short_option` does not tell options that are only documentation from others, and the help list does: after a
  documentation with its key, an option is shown with a letter for which the parser picks the documentation
  (`HelpAgreesWithParser`, `DocTakesLetter`).
* `find_short_option` asserts that the letter is ASCII, so that another letter on the command line ends the program
  (`NotAscii`).
* `fuzzy_get` for several entries (wvstreams/configfile/wvconf.cc:305-328) shares its cache of visited sections among the
  entries, so that only the first entry can ever be found (`FuzzyGetAll`). It ends where looking each entry up on its own
  would end exactly if the first listed section whose chain has any of the entries has the first one
  (`FirstEntryIfAndOnlyIfLeads`, `SecondEntryIsMissed`).
* `WvConf::set` looks an entry up under its name as given, and sets it under the name without white space around it. So
  it can raise the dirty flag although nothing changes (`DirtyWithoutChange`): exactly if the lookup misses what is there
  already under the trimmed name (`DirtyIffChanged`), which cannot be with a trimmed name (`DirtyExactIfTrimmed`).
* Loading a file may leave an entry name repeated in a section. Setting such a name to nothing brings its second value to
  light (`RepeatedNameComesToLight`); it leaves nothing of that name exactly if it occurs at most once
  (`ClearedIfAndOnlyIfOnce`).
* `msecdiff` rounds away from zero, and does not chop as its comment says, exactly when the microseconds of the later
  time are behind those of the earlier one by a broken number of milliseconds (`MsecDiffChops`, `MsecDiffRoundsAway`); a
  difference beyond the range of an int is clamped (`MsecDiffClamps`). The alarm for the next deadline is less than a
  millisecond late.
* When the block encoder fails for a last block that is cut short, after all whole blocks, `_encode` takes a negative
  amount off the output, and the assertion of unalloc fails; in no other case does it (`Encode`, `LastBlockCanFail`).
* `unregister_name` asserts that the caller owns the name; a ReleaseName call for any other name is not answered but
  fails this assertion (`Trips`, `FilterFunc`).
* The groups of help entries are ordered 0, 1, ..., n, -m, ..., -1 (`GroupCmpIsOrder`).

## Model

| member | source | states |
|---|---|---|
| ArgpLookup.FirstWithKeyIsLeast | wvstreams/argp/argp-parse.c:319-339 | the first option with a key is in the list, has that key, and nothing before it has; there is none exactly if no option has the key |
| ArgpLookup.FindShortOption | wvstreams/argp/argp-parse.c:319-339 | the nested search over groups and options finds the first short option with the letter in preorder |
| ArgpLookup.MatchOption | wvstreams/argp/argp-parse.c:347-373 | the character loop tells exact, partial and no match exactly by whether the argument up to '=' is the name, a proper prefix of it, or neither |
| ArgpLookup.StemAndValue | wvstreams/argp/argp-parse.c:351-373 | an argument is its stem, and if there is one, '=' and its inline value |
| ArgpLookup.FindLongOption | wvstreams/argp/argp-parse.c:375-422 | the search with its counters finds what `LongOptionIs` is about, the first exact match in all groups, or else the only partial match |
| ArgpLookup.LongOptionIs | wvstreams/argp/argp-parse.c:375-422 | an argument gives the option at a place of the list exactly if its name is the text up to `=` and no earlier one has that name, or no option has that name and it is the only one whose name the text abbreviates; it gives none exactly if no option has that name and the number of those that it abbreviates is not 1 |
| ArgpLookup.AbbreviationIsTaken | wvstreams/argp/argp-parse.c:415-419 | for example `--verb` with the only option `verbose` |
| ArgpLookup.ClassifyArg | wvstreams/argp/argp-parse.c:872-930 | the kind of an argv element, each with the condition on its text; under ARGP_LONG_ONLY short options are a single letter that some group has |
| ArgpLookup.KindsOfArg | wvstreams/argp/argp-parse.c:876-930 | for every kind, an argv element is of it with a certain option text if and only if the element says so; ARGP_LONG_ONLY makes a long option of a single dash exactly with more than one letter, or one that no group has |
| ArgpWriting.WrittenIsRead | wvstreams/argp/argp-parse.c:936-1201 | options written out as argv in any form (letters joined in one element, `-oV`, `-o V`, `--name=V`, `--name V`, `-name` with ARGP_LONG_ONLY, an optional value left out), each with a letter or name that is its own, with operands between them, up to `--`, the end or a malformed option: the scan gives exactly these options in order, with their values, these operands, and this fault |
| ArgpWriting.EveryArgvIsWritten | wvstreams/argp/argp-parse.c:936-1201 | every argv is written so, so that this says what the scan gives for all of them |
| ArgpWriting.LettersInOneElement | wvstreams/argp/argp-parse.c:961-1010 | letters without values in one element give one option each, in order, before what the rest of argv gives |
| ArgpWriting.TwoLettersAreRead | wvstreams/argp/argp-parse.c:961-1010 | for example `-ab` |
| ArgpTwoPass.ScanKeepsAll | wvstreams/argp/argp-parse.c:756-868 | the two-pass meaning neither loses nor invents an element of argv |
| ArgpTwoPass.ElementsInPosixOrder | wvstreams/argp/argp-parse.c:1028-1115 | the option elements that a permuting pass gathers mean the same in strict POSIX order, whatever operands follow them |
| ArgpTwoPass.PermuteThenPosix | wvstreams/argp/argp-parse.c:1028-1115 | permuting an argv and then parsing it in strict order delivers the same as parsing it with permutation |
| ArgpExchange.RotatedIsPermutation | wvstreams/argp/argp-parse.c:804-811 | the rotation of two adjacent segments is a permutation, and keeps the length |
| ArgpExchange.RotatesIffRotated | wvstreams/argp/argp-parse.c:804-811 | the rotation is the only arrangement with every element where its segment and its place in it put it |
| ArgpExchange.ShortBottom | wvstreams/argp/argp-parse.c:830-845 | swapping a shorter bottom segment with the end of the top one leaves a smaller rotation with the same result |
| ArgpExchange.ShortTop | wvstreams/argp/argp-parse.c:846-861 | swapping a shorter top segment with the start of the bottom one leaves a smaller rotation with the same result |
| ArgpExchange.Rotate | wvstreams/argp/argp-parse.c:813-868 | the block-swap loop ends, with the array rotated exactly |
| ArgpState.OfferBounds | wvstreams/argp/argp-parse.c:756-802 | offering an operand to the groups: who answered, and where `next` can be afterwards, for all user parsers within argv; within argc if no refused ARGP_KEY_ARGS call sets `next` to argc |
| ArgpState.TidyRefusalLeavesNext | wvstreams/argp/argp-parse.c:756-802 | an operand refused by all user parsers, each leaving `next` alone when it refuses, leaves `next` where it was |
| ArgpState.OvershootIfAndOnlyIf | wvstreams/argp/argp-parse.c:756-802 | taking an operand brings `next` past argc exactly if a call with ARGP_KEY_ARGS set it to argc and no later one moved it |
| ArgpState.OvershootsFromEnd | wvstreams/argp/argp-parse.c:770-780 | in terms of the group that takes it: exactly if `next` was argc when the group was offered the operand, and its answer does not move it |
| ArgpState.AcceptanceCanOvershoot | wvstreams/argp/argp-parse.c:756-802 | two user parsers with which `next` becomes argc + 1 |
| ArgpState.OfferWithoutMoves | wvstreams/argp/argp-parse.c:756-802 | without moves an accepted operand advances `next` by one, and a refused one was refused by every parser, as ARGP_KEY_ARG and as ARGP_KEY_ARGS |
| ArgpState.OfferedInOrder | wvstreams/argp/argp-parse.c:756-802 | the groups with parsers are asked in order, each with ARGP_KEY_ARG and, when it refuses, with ARGP_KEY_ARGS; the number of calls tells who took the operand |
| ArgpState.RotationMovesBehind | wvstreams/argp/argp-parse.c:813-868 | the rotation puts the skipped operands behind the options after them, each in its order |
| ArgpState.LookingTakes | wvstreams/argp/argp-parse.c:984-1013 | taking an option keeps what was delivered, skipped and still ahead equal to the whole |
| ArgpState.QuoteEnds | wvstreams/argp/argp-parse.c:1092-1114 | after `--` argv is in its final order, and only operands are left |
| ArgpState.LogIsPrefix | wvstreams/argp/argp-parse.c:936-1201 | in every state of a run, what was delivered is a start of what the two-pass meaning delivers |
| ArgpParser.Parser.Exchange | wvstreams/argp/argp-parse.c:813-868 | the skipped segment is behind the options, the bounds describe it, and argv is a permutation |
| ArgpParser.Parser.ParseArg | wvstreams/argp/argp-parse.c:756-802 | the outcome of offering an operand, the new `next`, the account of args_processed, which is off by one exactly past argc, and when `args_only` is taken back |
| ArgpParser.CreditCounts | wvstreams/argp/argp-parse.c:791-795 | crediting the group that took operands changes the account by exactly what the credit exceeds the operands delivered |
| ArgpParser.Parser.TakeLetter | wvstreams/argp/argp-parse.c:961-1010 | one letter of a group of short options, with its value or its fault, is what the scan finds at this place |
| ArgpParser.Parser.TakeLong | wvstreams/argp/argp-parse.c:1118-1186 | one long option, with its value or its fault, is what the scan finds at this place |
| ArgpParser.Parser.SkipOperand | wvstreams/argp/argp-parse.c:1062-1078 | skipping an operand keeps the run on its way; the assertion at 1072 holds |
| ArgpParser.Parser.ParseQuote | wvstreams/argp/argp-parse.c:1092-1114 | handling `--` keeps the run on its way; the assertion at 1095 holds |
| ArgpParser.Parser.FinishSkipped | wvstreams/argp/argp-parse.c:1028-1044 | at the end of argv the skipped operands come last and are handed out next |
| ArgpParser.Parser.Normalize | wvstreams/argp/argp-parse.c:939-951 | after the clamp first_nonopt <= last_nonopt <= next, wherever the user parsers moved `next` |
| ArgpParser.Parser.ParseNext | wvstreams/argp/argp-parse.c:936-1201 | one step: for all user parsers the invariant holds, argv is permuted, and args_processed counts the operands delivered, and one more exactly past argc; for cooperative ones the run stays on its way and comes closer to its end, or ends in one of three ways |
| ArgpParser.Parser.ParseSteps | wvstreams/argp/argp-parse.c:936-1201 | any number of steps with user parsers that set `next` anywhere in argv: no assertion fails, no access is out of bounds, argv is a permutation of what it was, and args_processed is never off by more than the one of a `next` past argc |
| ArgpParser.Parser.Parse | wvstreams/argp/argp-parse.c:1245-1250 | the loop ends, at a malformed option with all before it delivered, or with everything delivered, or with an answer of a user parser |
| ArgpParser.Parser.AcceptingRunIsComplete | wvstreams/argp/argp-parse.c:936-1201 | with user parsers that take everything, the end of a run is completeness or the first malformed option |
| ArgpParser.ArgpParse | wvstreams/argp/argp-parse.c:1208-1250 | a run on a fresh parser delivers all options with their values in order, then all operands in order, and argv is the option elements followed by the operands |
| ArgpGroups.CalcSizes | wvstreams/argp/argp-parse.c:526-549 | counts the groups and the child-input slots of a tree, and its short options, in each vector up to the first that is not short |
| ArgpGroups.LettersFit | wvstreams/argp/argp-parse.c:437-549 | for every tree at least as many letters are recorded as were counted, and as many exactly if in every option vector the short options come before all others |
| ArgpGroups.UsedWithinCounted | wvstreams/argp/argp-parse.c:437-549 | the slots that convert_options hands out are at most those that were counted |
| ArgpGroups.ConvertOptions | wvstreams/argp/argp-parse.c:437-489 | the group array holds the layout of the tree from its place on, and is unchanged elsewhere; the letters of the tree are recorded, if letters are wanted; what the layout means for the groups is `LayoutGivesInputs` |
| ArgpGroups.LayoutWellLaid | wvstreams/argp/argp-parse.c:437-489 | in the layout of any tree parents come before their children and have a slot for each, and no two groups share a slot |
| ArgpGroups.ConvertedTree | wvstreams/argp/argp-parse.c:493-549 | exactly as many groups as counted, and all slots within those counted |
| ArgpGroups.ConvertedParents | wvstreams/argp/argp-parse.c:437-489 | every group's parent has a smaller index, and a slot for it |
| ArgpGroups.SlotsAfterCall | wvstreams/argp/argp-parse.c:620-638 | one more call keeps what the other groups left in their slots |
| ArgpGroups.InitPass | wvstreams/argp/argp-parse.c:617-641 | the forward pass gives every group the input that its already initialised parent chose for it, up to the first error |
| ArgpInputs.LayoutGivesInputs | wvstreams/argp/argp-parse.c:437-489 | on the layout of any tree, each group has the input that the tree alone says, group by group in preorder: what its parent left at its own number, or, below an argp without a group, 0; the first child of an argp without a parser has that argp's own input |
| ArgpInputs.ParserInit | wvstreams/argp/argp-parse.c:617-641 | laying out a tree and initialising its parsers: up to the first error every parser has been given the input that the tree says |
| ArgpInputs.SecondChildGetsItsOwn | wvstreams/argp/argp-parse.c:620-638 | for example a second child, which gets what was left for it and not what was left for the first |
| ArgpHol.FirstsFacts | wvstreams/argp/argp-help.c:445-511 | the letters of a list have no duplicates, and are exactly the short letters of its options |
| ArgpHol.NextLetter | wvstreams/argp/argp-help.c:559-582 | the letter at the current place of the shared string tells whether the option's letter is new |
| ArgpHol.Hol.Make | wvstreams/argp/argp-help.c:445-511 | the entries and letters of one argp describe its options; as many entries as counted, the letters fit, every entry has a proper option first, with its aliases behind it, and its group follows the entry before it |
| ArgpHol.MergeStep | wvstreams/argp/argp-help.c:842-927 | copying one letter of the appended list, or dropping it, keeps the merged string the first occurrences of all letters |
| ArgpHol.Hol.Append | wvstreams/argp/argp-help.c:842-927 | the appended list has the entries of both, in order, and describes the options of both, with all positions in the shared string right |
| ArgpHol.HolOf | wvstreams/argp/argp-help.c:1373-1392 | the list of a whole tree describes its options in preorder |
| ArgpHol.ShortIterate | wvstreams/argp/argp-help.c:559-582 | shows exactly the visible options of an entry that own their letter, each with the proper option it stands for |
| ArgpHol.ShownIs | wvstreams/argp/argp-help.c:559-582 | an option is shown exactly if it owns its letter and is visible |
| ArgpHol.ShownInOrder | wvstreams/argp/argp-help.c:559-582 | they are shown in the order of the entry, and none twice |
| ArgpHol.RealOptionIsNearest | wvstreams/argp/argp-help.c:559-582 | the proper option that an alias stands for is the nearest one up to it that owns its letter and is no alias |
| ArgpHol.LayoutInPreorder | wvstreams/argp/argp-parse.c:437-489 | the groups of a tree hold its options in preorder |
| ArgpHol.LettersInPreorder | wvstreams/argp/argp-parse.c:437-489 | the letters recorded for a tree are those of its short options in preorder |
| ArgpHol.LetterIsRecorded | wvstreams/argp/argp-parse.c:448-454 | the string that classify_arg looks in has a letter exactly if some short option of the tree has it |
| ArgpHol.OwnerIsPicked | wvstreams/argp/argp-parse.c:319-339 | find_short_option picks an option for a letter exactly if the letter is its key, no short option before it owns the letter, and no documentation before it has the key |
| ArgpHol.LettersOnce | wvstreams/argp/argp-help.c:842-927 | however many lists were appended, the shared string has every letter of the tree exactly once |
| ArgpHol.HelpAgreesWithParser | wvstreams/argp/argp-help.c:559-582 | for every tree the parser picks a short option of an entry exactly if the option owns its letter in the list and no documentation before it has the key |
| ArgpHol.HelpAgreesWithoutDocs | wvstreams/argp/argp-help.c:559-582 | so what is shown for a letter that no documentation has as its key is the option that the parser picks |
| ArgpHol.DocTakesLetter | wvstreams/argp/argp-parse.c:319-339 | a tree whose help list shows an option with a letter for which the parser picks the documentation before it |
| ArgpUsage.FindLine | wvstreams/argp/argp-help.c:1427-1443 | finds the line of args_doc that the level stands for, and whether another follows |
| ArgpUsage.LinesAreSeparated | wvstreams/argp/argp-help.c:1427-1443 | the alternatives of a description are what its line feeds separate |
| ArgpUsage.CalledInRange | wvstreams/argp/argp-help.c:1418-1470 | a call on any tree keeps every level a char that stands for a line |
| ArgpUsage.NeverCarries | wvstreams/argp/argp-help.c:1418-1470 | with more than 128 lines in some argp of the tree a call never passes a carry on: it always says that there are more patterns |
| ArgpUsage.CalledCounts | wvstreams/argp/argp-help.c:1418-1470 | with at most 128 lines everywhere a call advances the number of the levels by one, or wraps it to 0 and passes the carry on |
| ArgpUsage.LoopEndsIfAndOnlyIfFits | wvstreams/argp/argp-help.c:1606-1657 | the loop ends after n patterns if and only if no argp has more than 128 lines and n is the number of combinations |
| ArgpUsage.OneArgpNeverEnds | wvstreams/argp/argp-help.c:1606-1657 | a tree of one argp with 129 lines, for which it never ends |
| ArgpUsage.ValueBounds | wvstreams/argp/argp-help.c:1418-1470 | the number that the levels stand for is below the number of combinations, and the last one exactly if every level is at its last line |
| ArgpUsage.ValueInjective | wvstreams/argp/argp-help.c:1418-1470 | different levels stand for different numbers |
| ArgpUsage.ArgsUsage | wvstreams/argp/argp-help.c:1418-1470 | on any tree prints the pattern of the levels, and updates its own part of them, char by char, with the carry going from each child to the next and to the parent |
| ArgpUsage.PatternIsChosen | wvstreams/argp/argp-help.c:1418-1470 | the pattern printed has one line of every description in the tree, in preorder: the one that its level stands for |
| ArgpUsage.CountLevels | wvstreams/argp/argp-help.c:1396-1410 | counts as many slots as the counter uses |
| ArgpUsage.PrintPatterns | wvstreams/argp/argp-help.c:1606-1657 | on any tree, round by round, prints the pattern that the levels stand for, and goes on until the first round that passes a carry out |
| ArgpUsage.EveryCombinationOnce | wvstreams/argp/argp-help.c:1606-1657 | every combination of alternatives is visited in exactly one round, and at the end all levels are back at 0 |
| ArgpUsage.CombinationsIsProduct | wvstreams/argp/argp-help.c:1606-1657 | the number of patterns is the product of the numbers of lines over all argps of the tree |
| ArgpCluster.GroupCmpIsOrder | wvstreams/argp/argp-help.c:672-681 | group_cmp orders groups 0, 1, ..., n, -m, ..., -1, and is antisymmetric |
| ArgpCluster.ClusterCmp | wvstreams/argp/argp-help.c:685-701 | compares at the point where the chains of ancestors meet, without climbing past the root, exactly for clusters of equal depth |
| ArgpCluster.ComparedWhereChainsPart | wvstreams/argp/argp-help.c:685-701 | the comparison is that of the ancestors just below the point where the chains part |
| ArgpCluster.CompareAntisymmetric | wvstreams/argp/argp-help.c:685-701 | comparing the other way round changes the sign |
| ArgpCluster.PathLessTransitive | wvstreams/argp/argp-help.c:685-701 | the lexicographic order of root paths is transitive |
| ArgpCluster.CompareIsLexicographic | wvstreams/argp/argp-help.c:685-701 | the comparison is the strict total lexicographic order of root paths by group and descending index |
| ArgpCluster.CompareTransitive | wvstreams/argp/argp-help.c:685-701 | the comparison is transitive |
| ArgpCluster.MadeTells | wvstreams/argp/argp-help.c:1373-1392 | the clusters that a tree makes hang below the right parents, and clusters with the same parent differ exactly if the keys of the tree do |
| ArgpCluster.ClusterOfChild | wvstreams/argp/argp-help.c:1381-1387 | a child with a group or a header, whichever it is, gets a cluster of its own with that group, its number and the right parent; any other child does not |
| ArgpCluster.AddClusters | wvstreams/argp/argp-help.c:1373-1392 | the recursion makes these clusters, with their groups, indexes and parents |
| ArgpCluster.ClustersOf | wvstreams/argp/argp-help.c:1373-1392 | the clusters of a tree meet the hypothesis of the order if and only if no two clusters directly below the same one have the same group and index |
| ArgpCluster.AllClusteredDiffer | wvstreams/argp/argp-help.c:1381-1387 | which holds when every child has a group or a header |
| ArgpCluster.MergedChildrenMayClash | wvstreams/argp/argp-help.c:1381-1387 | a tree with a merged child for which it does not hold |
| SslBounce.FailedCallIsRepeated | wvstreams/crypto/wvsslstream.cc:462-526 | in every run, the SSL_write after a failed one has byte-identical data |
| SslBounce.WvSSLStream.SslWrite | wvstreams/crypto/wvsslstream.cc:479-531 | one SSL_write of the bounce buffer: accepted exactly if SSL says so, what is then owed, and that only the end of the connection closes the stream |
| SslBounce.WvSSLStream.Uwrite | wvstreams/crypto/wvsslstream.cc:430-551 | for any caller every call had the outcome that SSL answered, the bounce buffer is the chunk owed to it, and bytes are eaten only while there is none; for a caller that presents unclaimed bytes again, what SSL took is the start of its stream, ahead of the claims by exactly the bytes to be eaten |
| SslBounce.WvSSLStream.WriteStream | wvstreams/crypto/wvsslstream.cc:430-551 | over any run of such writes SSL has taken exactly a prefix of the caller's stream: claimed plus write_eat bytes, and the bounce buffer holds the next ones |
| SslBounce.NextChunk | wvstreams/crypto/wvsslstream.cc:464-477 | the next chunk of the caller's buffer is the next part of its stream |
| SslBounce.WvSSLStream.Uread | wvstreams/crypto/wvsslstream.cc:310-427 | what was returned, followed by the bounce buffer, is what all calls of SSL_read have answered; when a read is empty or short, and when it is pending |
| Text.SameNameIs | wvstreams/configfile/cfgsection.cc:32 | two names are the same, ignoring case, exactly if they are as long as each other and the same letter by letter |
| Text.TrimIs | wvstreams/utils/wvstrutils.cc:59-79 | trimming takes away exactly the white space around a text |
| ConfModel.NamedFromIsFirst | wvstreams/configfile/cfgsection.cc:26-37 | a place is the one the lookup finds exactly if it has the name, ignoring case, and nothing before it does |
| ConfModel.LookupAfterSet | wvstreams/configfile/cfgsection.cc:47-65 | after set a section with any entries answers the value for the name, or for an empty value what a second entry with the name says, and for every other name what it answered before |
| ConfModel.ClearedIfAndOnlyIfOnce | wvstreams/configfile/cfgsection.cc:47-65 | setting an entry to nothing leaves nothing of that name if and only if at most one entry had it |
| ConfModel.SetKeepsDistinct | wvstreams/configfile/cfgsection.cc:47-65 | set never makes two entries with the same name |
| ConfLookup.SetByPlaces | wvstreams/configfile/cfgsection.cc:47-65 | set changes one place of the list: the first entry of that name, ignoring case, gets the value, or goes for an empty one; without one, an entry is added at the end for a value |
| ConfLookup.AnswerUnique | wvstreams/configfile/wvconf.cc:270-286 | an Inherits chain has one answer for an entry |
| ConfLookup.AnswerExists | wvstreams/configfile/wvconf.cc:270-286 | every Inherits chain has an answer for every entry, also one that runs into itself: the value where it is met first, or that it is never met |
| ConfLookup.FoundHere | wvstreams/configfile/wvconf.cc:276-283 | a section whose first entry of that name, ignoring case, is at some place gives the value there |
| ConfLookup.FoundFollowsInherits | wvstreams/configfile/wvconf.cc:276-283 | a section without the entry gives what the first section gives whose name is the value of its first Inherits entry; nothing if there is no such entry or section |
| ConfLookup.GotByPlaces | wvstreams/configfile/wvconf.cc:270-286 | get gives what the first section of that name gives; else the first global entry of that name; else the default |
| ConfLookup.InheritedIsGot | wvstreams/configfile/wvconf.cc:270-286 | for example an entry of a section that Inherits it |
| ConfLookup.NeverMet | wvstreams/configfile/wvconf.cc:276-283 | stopping at a visited section loses nothing: what was not met so far on the chain is never met |
| ConfLookup.SearchAnswers | wvstreams/configfile/wvconf.cc:338-347 | with a cache of sections that are closed under Inherits and do not have the entry, the loop gives the answer of the chain, and leaves such a cache |
| ConfLookup.FirstHitIsFirst | wvstreams/configfile/wvconf.cc:305-328 | the first place in the lists of sections and entries where the section's own chain has the entry: it hits, nothing before it does, and there is none only if nothing hits |
| ConfLookup.FirstEntryIfAndOnlyIfLeads | wvstreams/configfile/wvconf.cc:305-328 | looking for the first entry alone ends at that place if and only if the first listed section whose chain has any of the entries has the first one |
| ConfLookup.FirstEntryGivesValue | wvstreams/configfile/wvconf.cc:305-328 | and then fuzzy_get for several entries gives the value found there |
| ConfLookup.SecondEntryIsMissed | wvstreams/configfile/wvconf.cc:305-328 | a section with the second of two entries, for which the default is given |
| ConfLookup.DirtyIffChanged | wvstreams/configfile/wvconf.cc:354-382 | the dirty flag of set tells whether something changes if and only if the set is not in vain, that is, the lookup under the given name does not miss what the trimmed name has already |
| ConfLookup.DirtyExactIfTrimmed | wvstreams/configfile/wvconf.cc:354-382 | for a trimmed entry name the flag always tells |
| ConfLookup.DirtyWithoutChange | wvstreams/configfile/wvconf.cc:354-382 | an entry name with a space in front for which it does not |
| ConfLookup.OnlyThatSectionChanges | wvstreams/configfile/wvconf.cc:354-382 | set changes the first section of that name and nothing else; without one, a section with this entry is added at the end for a value |
| ConfLookup.LookupAfterConfSet | wvstreams/configfile/wvconf.cc:354-382 | what a section gives for every name after set, whatever names and entries there are; there is no section only if there was none and the value is empty |
| ConfLookup.SetTakesEffect | wvstreams/configfile/wvconf.cc:354-382 | for a trimmed name the section gives the value after set if and only if it is not empty, or was given already, or no second entry of that name has a value |
| ConfRoundTrip.GoodComesBack | wvstreams/configfile/wvconf.cc:469-517 | saving and loading into an empty configuration gives the same sections, entries, values and order |
| ConfRoundTrip.SectionLoaded | wvstreams/configfile/wvconf.cc:237-252 | the dumped entries of a new section come back as they were, repeated names and empty values included |
| ConfRoundTrip.GlobalsLoaded | wvstreams/configfile/wvconf.cc:237-252 | the dumped global entries come back, although each is looked for before it is added |
| ConfRoundTrip.NotHeadAgain | wvstreams/configfile/wvconf.cc:439-466 | the line printed for an entry is never taken for the head of a section if the line it came from was not |
| ConfRoundTrip.LoadingKeepsGood | wvstreams/configfile/wvconf.cc:216-253 | whatever a file says, what is loaded from it satisfies the condition for coming back |
| ConfRoundTrip.ComesBackIfAndOnlyIfGood | wvstreams/configfile/wvconf.cc:216-253 | a configuration comes back from its file exactly if: lines are trimmed and have no line feed, entry names have no '=' and are not empty, no entry prints as a section head, section names have no ']' and are distinct ignoring case, and global entries are distinct and not empty |
| ConfRoundTrip.LoadedComesBack | wvstreams/configfile/wvconf.cc:216-253 | for every file, saving what was loaded and loading that changes nothing |
| ConfRoundTrip.RepeatedNameComesToLight | wvstreams/configfile/wvconf.cc:237-252 | a configuration that loading makes, in which setting an entry to nothing brings a second value to light |
| ConfRoundTrip.HeadIs | wvstreams/configfile/wvconf.cc:439-452 | a line is a section head exactly if it is a text without `]` in brackets |
| ConfRoundTrip.BlankHeadLoaded | wvstreams/configfile/wvconf.cc:216-253 | a head with a blank name leads back to the global entries |
| ConfRoundTrip.RepeatedHeadLoaded | wvstreams/configfile/wvconf.cc:216-253 | a section head that is there already, ignoring case: the lines after it are set one by one in the first section of that name, and nothing else changes |
| ConfRoundTrip.NewHeadLoaded | wvstreams/configfile/wvconf.cc:216-253 | a new head: a section with the entries after it is added at the end |
| ConfRoundTrip.TwoHeadsLoaded | wvstreams/configfile/wvconf.cc:216-253 | a file with the same head twice gives one section, with the entries of the second part set after those of the first |
| ConfRoundTrip.HeadTwice | wvstreams/configfile/wvconf.cc:216-253 | for example such a file, in which the second value counts |
| ConfRoundTrip.ExampleFile | wvstreams/configfile/wvconf.cc:501-509 | the text of one file, and that it comes back |
| ConfRoundTrip.PartsOfLine | wvstreams/configfile/wvconf.cc:237-252 | a line falls into name and value at its first `=`, without the white space around them |
| WvConfs.WvConfigSection.IndexOf | wvstreams/configfile/cfgsection.cc:26-37 | the loop finds the place of the first entry with the name |
| WvConfs.WvConfigSection.Set | wvstreams/configfile/cfgsection.cc:47-65 | the list changes as SetEntry says |
| WvConfs.WvConfigSection.Dump | wvstreams/configfile/cfgsection.cc:76-88 | prints the entries in order |
| WvConfs.WvConf.Search | wvstreams/configfile/wvconf.cc:338-347 | the loop ends, on cyclic chains too, with the result and the cache of the climb that SearchAnswers is about |
| WvConfs.WvConf.Get | wvstreams/configfile/wvconf.cc:270-286 | gives the answer of the section's chain, else the global entry, else the default |
| WvConfs.WvConf.FuzzyGet | wvstreams/configfile/wvconf.cc:331-351 | the answer of the first listed section whose own chain has one, as if each were searched with its own cycle check |
| WvConfs.WvConf.FuzzyGetAll | wvstreams/configfile/wvconf.cc:305-328 | for several entries the result is that for the first entry alone |
| WvConfs.WvConf.Set | wvstreams/configfile/wvconf.cc:354-382 | the new configuration, and whether the dirty flag is raised |
| WvConfs.WvConf.Save | wvstreams/configfile/wvconf.cc:501-509 | the text of the file |
| WvConfs.WvConf.LoadLine | wvstreams/configfile/wvconf.cc:216-253 | one line changes the section objects as the specification says |
| WvConfs.WvConf.LoadFile | wvstreams/configfile/wvconf.cc:216-253 | the configuration after loading a text into whatever was there |
| DBusAuth.HexRoundTrip | wvstreams/utils/wvhex.cc:40-90 | decoding hexadecimal text gives back what was encoded |
| Decimals.AtoiOfDecimal | wvstreams/include/wvstring.h:286-287 | a number written in decimal is read back |
| DBusAuth.LineComesThrough | wvstreams/dbus/wvdbusconn.cc:259-265 | in() gives a line exactly when all of it has arrived, and then without its line end |
| DBusAuth.AuthLineRead | wvstreams/dbus/wvdbusserver.cc:64-82 | the server reads from the request the user number that the client wrote |
| DBusAuth.ExampleRequest | wvstreams/dbus/wvdbusconn.cc:369-376 | the bytes that the client of user 1000 sends |
| DBusAuth.WvDBusConn.ClientAuthorize | wvstreams/dbus/wvdbusconn.cc:369-396 | sends the request first, and BEGIN once the server's OK has arrived whole |
| DBusAuth.WvDBusConn.ReadOk | wvstreams/dbus/wvdbusconn.cc:378-395 | for any server: done by a line that starts with OK, failed by any other line, nothing without a line |
| DBusAuth.WvDBusConn.Obey | wvstreams/dbus/wvdbusserver.cc:64-107 | what the server does about each line, for any client |
| DBusAuth.WvDBusConn.ServerAuthorize | wvstreams/dbus/wvdbusserver.cc:42-108 | for any client, what is read and what becomes of the state, the user and the answer: it waits for BEGIN only after AUTH EXTERNAL, and is done only by BEGIN; after a first byte that is not zero it fails, and takes no line, because the error has closed the stream |
| DBusAuth.WvDBusConn.HonestWentOn | wvstreams/dbus/wvdbusserver.cc:42-108 | for the client of this library it goes through its states as the bytes come in, and never fails |
| DBusAuth.WvDBusConn.WentOnHears | wvstreams/dbus/wvdbusserver.cc:42-108 | one call keeps: what was read is a zero byte and lines that bring the server into its state |
| DBusAuth.Serve | wvstreams/dbus/wvdbusserver.cc:42-108 | in any run with any client, whose bytes arrive in any pieces, the server accepts it only after a zero byte, refused AUTH lines, an AUTH EXTERNAL line and a BEGIN line, and has answered with one refusal for each refused line, and OK |
| DBusAuth.WvDBusConn.TryAuth | wvstreams/dbus/wvdbusconn.cc:290-304 | the queued messages are written when the handshake is done, and not before |
| DBusAuth.WvDBusConn.Send | wvstreams/dbus/wvdbusconn.cc:194-205 | a message is queued before authorization and written after it, behind all that was queued |
| DBusAuth.Session.Run | wvstreams/dbus/wvdbusconn.cc:135-154 | any run of the two ends, with messages sent at any time and the streams cut anywhere, keeps the invariant of both handshakes |
| DBusAuth.MessagesComeThrough | wvstreams/dbus/wvdbusserver.cc:42-108 | in every state of every run no message byte comes before BEGIN, the server is authorized only after it has read BEGIN, for the client's own user, and each end has read as messages a start of what the other sent, Hello first |
| DBusAuth.Connect | wvstreams/dbus/wvdbusconn.cc:135-154 | in any run from the start the client has written its request, or its request, BEGIN and all its messages with Hello first; the server has accepted it only in the second case, and each end has read a start of the other's messages |
| DBusAuth.NeverStuck | wvstreams/dbus/wvdbusconn.cc:369-396 | when everything has arrived and neither end would do anything, both are authorized and have read all messages of the other |
| DBusPending.MsecAddExact | wvstreams/utils/wvtimeutils.cc:39-46 | adds exactly so many milliseconds |
| DBusPending.MsecDiffChops | wvstreams/utils/wvtimeutils.cc:14-28 | for any two times, in either order, whose difference an int can hold, the result is right to within a millisecond, and is the difference chopped to milliseconds exactly if the microseconds of the later time are not behind by a broken number of milliseconds |
| DBusPending.MsecDiffClamps | wvstreams/utils/wvtimeutils.cc:14-28 | for all times, when the result is the chopped difference; a clamped one is only where that is the bound itself |
| DBusPending.MsecDiffRoundsAway | wvstreams/utils/wvtimeutils.cc:14-28 | the two examples of its comment, 0.9 and -0.9, for which it gives 1 and -1 |
| DBusPending.AccountedFired | wvstreams/dbus/wvdbusconn.cc:479-504 | taking out an entry and calling its callback keeps the account: every registration waits and was not called, or is gone and was called exactly once |
| DBusPending.AccountedAdded | wvstreams/dbus/wvdbusconn.cc:507-516 | so does a new entry |
| DBusPending.AlarmInTime | wvstreams/dbus/wvdbusconn.cc:399-414 | there is no alarm only if nothing is pending; else it is at once if the earliest deadline is over, and otherwise less than a millisecond before or after it (never later, but earlier where an int cannot hold the time until then) |
| DBusPending.PendingTable.FirstDeadline | wvstreams/dbus/wvdbusconn.cc:401-407 | the earliest deadline, for any order of the table |
| DBusPending.PendingTable.MinTimeoutMsec | wvstreams/dbus/wvdbusconn.cc:399-414 | the alarm for the earliest deadline, or -1 |
| DBusPending.PendingTable.AddPending | wvstreams/dbus/wvdbusconn.cc:507-516 | exactly the new entry is added, with its deadline; an entry under the same serial is cancelled and its callback called |
| DBusPending.PendingTable.FilterFunc | wvstreams/dbus/wvdbusconn.cc:328-354 | a reply calls exactly the callback that waits for it, and takes its entry out |
| DBusPending.PendingTable.ExpireOverdue | wvstreams/dbus/wvdbusconn.cc:428-441 | the loop that starts again after each expiry ends, with no overdue entry left, all others kept, and one call for each that went |
| DBusPending.PendingTable.PostSelect | wvstreams/dbus/wvdbusconn.cc:417-470 | which entries are left after expiry and replies, how the callback of each one that is gone was called, and the next alarm |
| DBusPending.Run | wvstreams/dbus/wvdbusconn.cc:208-214 | over any run of a new connection every callback that was registered waits and was never called, or does not wait any more and was called exactly once; nothing else was called |
| DBusServer.OwnerIsLatest | wvstreams/dbus/wvdbusserver.cc:169-199 | a connection owns a name exactly if it was given the name and nothing has taken it away since |
| DBusServer.OwnerIsAlive | wvstreams/dbus/wvdbusserver.cc:182-199 | only open connections own names |
| DBusServer.UniqueNamesDiffer | wvstreams/dbus/wvdbusconn.cc:141 | no two connections get the same unique name |
| DBusServer.UniqueNameOwned | wvstreams/dbus/wvdbusserver.cc:434-440 | an open connection owns its unique name, unless somebody asked for that name or released it |
| DBusServer.RoutedToTheLiving | wvstreams/dbus/wvdbusserver.cc:371-415 | nothing is sent to a closed connection; a broadcast reaches every open one exactly once, and any other message leads to exactly one answer or delivery |
| DBusServer.MessageChangesOwners | wvstreams/dbus/wvdbusserver.cc:202-368 | a connection that requests a name owns it, one that is released has no owner, and every other name, and every name after any other message, keeps its owner |
| DBusServer.AnswersFollowRequests | wvstreams/dbus/wvdbusserver.cc:225-291 | NameHasOwner and GetNameOwner tell the caller after RequestName, and nobody after ReleaseName or when the owner has closed; another connection that closes changes nothing |
| DBusServer.AnswersTellHistory | wvstreams/dbus/wvdbusserver.cc:225-291 | they tell the connection that was given the name if nothing has taken it away since, and nobody if there is none |
| DBusServer.RoutesFollowRequests | wvstreams/dbus/wvdbusserver.cc:371-393 | a message for a name goes to the connection that asked for it, with its sender set; when that has closed, the sender is told that there is no such service |
| DBusServer.HelloTellsOwnName | wvstreams/dbus/wvdbusserver.cc:202-222 | Hello tells a connection a name that it owns |
| DBusServer.WvDBusServer.UnregisterName | wvstreams/dbus/wvdbusserver.cc:175-179 | releases the name; the assertion fails exactly if the caller does not own it |
| DBusServer.WvDBusServer.RemoveNamesOf | wvstreams/dbus/wvdbusserver.cc:182-196 | the loop that starts again after each removal ends, for any order of the map, with exactly the names of the connection gone |
| DBusServer.WvDBusServer.UnlinkConn | wvstreams/dbus/wvdbusserver.cc:198 | finding and unlinking the connection until it is gone leaves the others in order |
| DBusServer.WvDBusServer.UnregisterConn | wvstreams/dbus/wvdbusserver.cc:182-199 | the connection is out of the list and owns nothing, and all else is as before |
| DBusServer.WvDBusServer.NewConnection | wvstreams/dbus/wvdbusserver.cc:434-440 | a new connection is in the list, and owns its unique name |
| DBusServer.WvDBusServer.DoServerMsg | wvstreams/dbus/wvdbusserver.cc:202-368 | a call to the bus is answered from the history of the names; lookups that put empty entries into the map change no owner |
| DBusServer.WvDBusServer.DoBridgeMsg | wvstreams/dbus/wvdbusserver.cc:371-393 | a message for a name with an owner goes to that owner, with its sender set |
| DBusServer.WvDBusServer.DoBroadcastMsg | wvstreams/dbus/wvdbusserver.cc:396-415 | a message for nobody goes to every open connection in order, the sender included |
| DBusServer.WvDBusServer.FilterFunc | wvstreams/dbus/wvdbusserver.cc:454-465 | everything that is sent because of a message, by all callbacks together, is what the history says; the caller owns a name it requested, nobody owns a released one, and no other name changes its owner |
| CounterMode.IncrementedValue | wvstreams/crypto/wvcountermode.cc:40-43 | the increment adds 1 modulo 256^countersize to the little-endian value |
| CounterMode.IncrCounter | wvstreams/crypto/wvcountermode.cc:40-43 | the loop in place increments the counter |
| CounterMode.AdvancedValue | wvstreams/crypto/wvcountermode.cc:53-76 | k increments add k modulo 256^countersize |
| CounterMode.CountersDistinct | wvstreams/crypto/wvcountermode.cc:53-76 | no two blocks of a message of up to 256^countersize blocks use the same counter |
| CounterMode.XorIsBitwise | wvstreams/crypto/wvcountermode.cc:98-99 | a bit is set exactly if it is set in one of the two bytes |
| CounterMode.KeyStreamBlock | wvstreams/crypto/wvcountermode.cc:53-76 | block i of the key stream is the encoded counter after i increments |
| CounterMode.EncodedByte | wvstreams/crypto/wvcountermode.cc:46-101 | byte j of block i of the output is that byte of the message, exclusive or byte j of the encoded counter after i increments |
| CounterMode.EncodedTwice | wvstreams/crypto/wvcountermode.cc:46-101 | encoding again from the same counter restores the message |
| CounterMode.EncodedSplit | wvstreams/crypto/wvcountermode.cc:46-101 | a message split at a block boundary is encoded as in one piece |
| CounterMode.AppendKeyStream | wvstreams/crypto/wvcountermode.cc:53-75 | encodes blocks up to the first call of the encoder that fails, or all that are needed: the largest whole number, or on flush for all of the input; how it ends, the key stream appended, and the counter advanced by as many blocks |
| CounterMode.LastBlockCanFail | wvstreams/crypto/wvcountermode.cc:63-75 | one byte with flush, for which only the cut block is encoded, and fails |
| CounterMode.MixData | wvstreams/crypto/wvcountermode.cc:77-99 | mixes the input into the output for every way the two buffers are cut into chunks |
| CounterMode.Encode | wvstreams/crypto/wvcountermode.cc:46-101 | appends input XOR key stream and consumes exactly that input, for any pattern of failing calls; it succeeds exactly if no call fails, and the assertion of unalloc fails exactly if the first one to fail is that for a last block cut short |
| WvLists.KeptWithout | wvstreams/include/wvlinklist.h:303-304 | taking out one matching element changes nothing about what is kept in the end |
| WvLists.KeptIsFilter | wvstreams/include/wvlinklist.h:303-304 | what is kept are the elements that do not match, and what is released are the owned ones that do, each in order |
| WvLists.SweptOneMore | wvstreams/dbus/wvdbusconn.cc:317-319 | one round of a deleting loop keeps: kept elements in front, the rest unchanged behind, dropped ones released |
| WvLists.WvList.AddAfter | wvstreams/include/wvlinklist.h:263-267 | the new element is behind the given link, the list is acyclic, and `tail` is the last link |
| WvLists.WvList.UnlinkAfter | wvstreams/include/wvlinklist.h:325-337 | exactly the next element is gone, and released if the list owned it; nothing happens behind the last link |
| WvLists.WvList.Zap | wvstreams/include/wvlinklist.h:228-232 | the list is empty, and every owned element was released once, in order |
| WvLists.WvList.Count | wvstreams/utils/wvlinklist.cc:24-32 | the number of elements |
| WvLists.Iter.Find | wvstreams/utils/wvlinklist.cc:59-65 | the iterator stands on the first place with the element, or at the end if there is none |
| WvLists.Iter.Unlink | wvstreams/include/wvlinklist.h:390-394 | the element under the iterator is gone, and it stands on the next one; at the end nothing happens; an iterator that was just rewound fails on its null `prev` |
| WvLists.Iter.Xunlink | wvstreams/include/wvlinklist.h:409-413 | the element under the iterator is gone, and it stands on the one before; at the end it only steps back; one that was just rewound is left on no link |
| WvLists.DeleteMatching | wvstreams/dbus/wvdbusconn.cc:313-320 | rewind, next and xunlink remove exactly the matching elements, keep the rest in order, and release what they owned |
| WvLists.UnlinkElement | wvstreams/include/wvlinklist.h:303-304 | finding and unlinking until there is none removes every occurrence, releases the owned ones in order, and keeps the rest in order |
| WvLists.ReleasedWithout | wvstreams/include/wvlinklist.h:325-337 | taking out the first match releases it before all the others |
| WvLists.Reverse | wvstreams/utils/wvlinklist.cc:35-56 | the links are turned in place: the contents are reversed, and `tail` is the last link again |
| WvLists.ReversedJoined | wvstreams/utils/wvlinklist.cc:35-56 | reversing two lists, one behind the other, reverses each and exchanges them |

## Left out

- parser_finalize, the default option parsers, ARGP_IN_ORDER and the other flags: they only set up or report a run; the end of a run is stated by `Ended`.
- User parsers that rewrite the elements of argv while they run: `reply` can move `next`, but not change argv.
- An argp with a parser but a null options pointer: its options are read as an empty list.
- hol_sort, hol_entry_cmp and printing of help texts: not a consistent order, and output plumbing.
- Help filters: args_doc is used as it is.
- The clusters of help entries: `ArgpCluster` models how they are made and their order, `ArgpHol` does not attach them to entries.
- The data an SSL stream buffers before it is connected, and the handshake: uwrite keeps such bytes in a buffer of their own, which is not written later in the model.
- SslBounce.WvSSLStream.SslWrite: does not model a partial SSL_write, because the code asserts that there is none.
- CounterMode.Encode: does not model an encoder that puts out part of a block when it fails; a call either turns a block into a block, or fails and leaves the output as it was.
- The contiguity of buffers: a buffer is a sequence of bytes that hands out chunks of arbitrary positive size.
- setcounter, getcounter, setkey: plain copies.
- getint, setint, maybeset, getraw, setraw, delete_section, callbacks, opening files and the sticky bit of WvConf: wrappers and environment. save and load_file are modelled for files that can be opened.
- Null entry values and null section names: an entry's value is a string, and lookups are by a string.
- Reply callbacks that call back into the connection, and the order in which the filters of a connection are called: `others` says whether one of them handled the message.
- Serial numbers: taken as given, not zero; they are assigned by an increasing counter in wvdbusmarshal.cc.
- The clock: every operation is given its times.
- Reading after end of file, and a stream that fails during the handshake: the streams deliver bytes until the run stops.
- User numbers above INT_MAX: atoi is modelled on all numbers.
- The contents of messages and of the credential replies: a message is its addresses, member, first argument and serial number; GetConnectionUnixUser and the certificate queries answer for the connection that owns the name.
- Delayed closing of connections: UnregisterConn is one step.
- Ids of links, sorted iterators and find_next: not used by the loops proved here.
