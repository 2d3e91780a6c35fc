# Verified models of LibU's algorithmic modules

LibU is a C library of utilities. This project models the modules of it whose behaviour is an algorithm or
a protocol over mutable state, and proves what they promise:

- the JSON encoder and the recursive-descent JSON parser (`JsonText`, `JsonCodec`, `JsonGrammar`, `Json`),
- the binary search tree with subtree counters (`BstTree`, `Bst`),
- the chained hash map and its discard policies (`HmapSpec`, `Hmap`),
- the test sequencer and the serial test scheduler (`SequencerSpec`, `SchedulerSpec`, `Sequencer`),
- the glob matcher (`FnmatchSpec`, `FnmatchLaws`, `Fnmatch`),
- the configuration objects and their text (`ConfigText`, `ConfigCodec`, `ConfigLines`, `ConfigLaws`,
  `ConfigOverwrite`, `Config`),
- the contiguous ring buffer (`RingBuffer`), the priority queue (`PQueue`) and the Base64 codec (`Base64`).

Most modules come in two layers. One states on plain values what is computed and proves the laws about it:
round trips, orders, invariants over every run. The other follows the C code, with classes whose fields are
updated in place, loops over a moving cursor and arrays, and is proved to compute exactly what the first
layer says, so that its laws hold of the code's form.

Throughout, memory allocation succeeds and sizes do not overflow. Strings are C strings: characters up to
a NUL. Locale-dependent character classes are those of the C locale.

## What is proved

**JSON.** Decoding undoes encoding exactly when the tree is an unnamed array or object, its object members
are named and its array elements are not, and no node is 16 or more levels deep; the tree's strings and
numbers are those of RFC 4627 that fit a token (`JsonCodec.RoundTrip`). Encoding is injective, and what is
written is a text of RFC 4627 that stands for the tree (`JsonGrammar.EncodingIsRfc`). A text that
decodes, its tokens fitting, gives a tree that survives encoding and decoding exactly when no member name
in it is empty (`JsonCodec.Normalizes`). By a grammar that is stated apart from the parser, every text of
RFC 4627 without DEL in its strings is accepted with the tree it stands for (`JsonGrammar.RfcTextReads`), and
exactly which texts are accepted altogether is said as well (`JsonGrammar.AcceptedTexts`). The matchers move
the cursor as the parser's specification says with and without a tree to build, so that a text whose tokens
fit decodes exactly when it validates and is not too deep.

**Binary search tree.** All insertion policies, under any random draw, put an entry after all entries not
greater than it and keep exact counters exact; they differ in whether it goes to the root or becomes a leaf,
and so in which of the entries with its key is found (`BstTree.PoliciesPlace`). While counters are exact, the
n-th entry is found, the count is the number of entries, balancing keeps the entries and gives the least
possible height, and deletion removes exactly the entry that the search finds. Exact counters survive a
deletion exactly when the key was not found or the node found was a leaf; what search, count, promotion,
balancing and deletion do once they are not exact is said as well (`BstTree.FindNthIs`,
`BstTree.CountAfterDelete`, `BstTree.PromoteNth`, `BstTree.Balance`, `BstTree.DeleteLaws`).

**Hash map.** Put, get and delete refine a finite map through every resize, and over every run a plain map
holds what was put and not deleted since (`HmapSpec.RunIsMap`). Under a discard policy puts and gets refine
a map and a queue, and over every run of puts and gets the entry a full cache gives up is the one
whose last use is oldest (FIFO, LRU), whose hits are fewest (LFU), or whose priority is lowest (CUSTOM), and
which one goes when hits or priorities are equal. What the queue is after a deletion by the user, and how
puts fail from then on, is proved too (`HmapSpec.StuckForever`).

**Sequencer and scheduler.** With unique identifiers, sequencing succeeds exactly when every dependency
names an object, none is recorded twice for one object, and no objects depend on each other in a circle;
ranks then respect the dependencies, and what each rank is follows from the order of the picks
(`SequencerSpec.RankIsBehind`). An object is skipped exactly when some object it depends on, directly
or through others, was run and did not succeed. A whole test passes exactly when suites and cases can be
sequenced and every test function returns success, and then each case ends with what its function returned
or skipped, and each suite as its cases make it (`Sequencer.RunTest`).

**Glob matcher.** Without `FNM_PERIOD` the matcher returns 0 exactly on the strings of the language that
the pattern denotes; with it, on no others, and exactly on which is said without `FNM_PATHNAME`
(`FnmatchSpec.PeriodAtTheStart`) and with it (`FnmatchSpec.PeriodsBehindSlashes`). Which patterns protect
leading periods in every string follows from their segments (`FnmatchSpec.ProtectsIff`). What plain and
quoted characters, wildcards and brackets stand for is said of the characters of the pattern, under every
combination of flags, and `FNM_CASEFOLD` is matching in small letters (`FnmatchLaws.CaseIsFolded`).

**Configuration.** What a saved tree comes back as is described for every tree of good keys and values, and
it is the tree saved exactly when each node has either a value or children. Setting a key changes the value
found under it and under no other key (`ConfigLaws.SetIsFound`, `ConfigLaws.OthersStay`), and loading a saved
tree over another one does what setting each of its values does (`ConfigOverwrite.LoadingOverSets`). What
every kind of line says is stated of its characters (`ConfigLines`).

**Ring buffer, priority queue, Base64.** The ring buffer is a bounded queue of bytes; the heap keeps its
order and content, and draining it sorts; Base64 is that of RFC 4648, section 4, and is undone by the
decoder exactly when the output has room; a text decoded is encoded again as itself exactly when it is
canonical (`Base64.Reencodes`), and which texts are decoded at all is said as well (`Base64.DecodesIff`).

## Where the code and its documentation differ

The model follows the code in each case.

- `srcs/toolbox/test.c:1061-1070` says that the ranking partitions the objects by "dependency-depth".
  Objects at the same depth can get different ranks (`SequencerSpec.SameDepthOtherRank`). Ranks are depths
  exactly when, up to the last object that an object depends on, only objects less deep than it are picked
  (`SequencerSpec.RanksAreDepthsIff`), as they are from a list ordered by depth.
- RFC 4627 lets DEL stand in a string; the parser takes it for a control character and refuses it
  (`JsonCodec.RfcStringReadBack` says exactly which literals are affected, `JsonGrammar.RfcTextReads` which
  texts). Beyond RFC 4627 it accepts whatever `isspace` takes for white space, white space inside the words
  `true`, `false` and `null`, a comma behind the last item, and any text behind the root
  (`JsonGrammar.AcceptedTexts`, `JsonGrammar.BeyondTheRfc`).
- The encoder drops an empty member name, which the parser accepts, so that such an object cannot be read
  back (`JsonCodec.EmptyNameIsLost`).
- `srcs/toolbox/config.c:74-75` says that each newline-terminated line is an assignment or a section name.
  A line that does not fit the 1024-byte buffer loses a character each time the buffer is full
  (`ConfigCodec.LineReadBackIffFits`), and a last line without a newline is not read at all
  (`ConfigCodec.LastLineIsLost`).
- `srcs/toolbox/config.c:77-80` says that an escaped `#` is treated as part of a value. It is read so, but
  written without its backslash, so that the value is cut off there when it is read again
  (`ConfigLines.HashIsLost`).
- A Base64 text that ends inside a quad is decoded to three bytes, missing characters being taken for bits
  that are all set (`Base64.CutShort`).
- Where `char` is signed, a character above 127 is compared as a negative number. Outside of brackets it
  makes the pattern match nothing (`FnmatchSpec.NegativeMatchesNothing`, `FnmatchSpec.PlainMatchesItself`);
  as the lower end of a range it lets in every character up to the upper end (`FnmatchSpec.NegativeEnds`,
  `FnmatchSpec.NegativeRange`). A pattern that ends inside a bracket matches nothing either
  (`FnmatchSpec.UnclosedMatchesNothing`).
- `include/missing/fnmatch.h:51` says of `FNM_PERIOD` that a period must be matched by a period. A bracket may
  match a leading one (`FnmatchSpec.BracketTakesPeriod`), and after a star that no slash follows the periods
  behind slashes are not protected from wildcards any more (`FnmatchSpec.PeriodForgottenAfterStar`). Which
  patterns protect all of them is said by `FnmatchSpec.ProtectsIff` and `FnmatchSpec.ProtectsStartIff`.
- After the deletion of an inner node of a search tree, the counter of the joined root is too small
  (`BstTree.DeleteBreaksCounters`). A second deletion can then lose entries
  (`BstTree.SecondDeletionLoses`), the search for the n-th entry can find none although there are more, and
  balancing can run into a missing child (`BstTree.BalanceFails`).
- `u_hmap_del` leaves the entry of the object deleted in the queue of a cache. When it comes to be the one to
  give way while the cache is full, the puts of all new keys but that one fail, although their objects have
  been linked, and the map outgrows its bound (`HmapSpec.StuckForever`, `HmapSpec.DeletionGetsStuck`).

## Model

| member | source | states |
|---|---|---|
| JsonCodec.RoundTrip | srcs/toolbox/json.c:1137-1727 | for every tree whose strings and numbers are RFC 4627 tokens that fit their buffers: decoding its encoding gives the same tree iff it is an unnamed container, members are named, elements are not, and its height is below 16 |
| JsonCodec.HeightIsReached | srcs/toolbox/json.c:1949-1959 | the height of a tree is the length of the longest path to a node of it |
| JsonCodec.ReadBack | srcs/toolbox/json.c:1202-1727 | the parser itself reads every such tree back, with all tokens fitting, whatever its depth |
| JsonCodec.EncodeIsInjective | srcs/toolbox/json.c:1137-1200 | two trees that can be written are never written alike |
| JsonCodec.Normalizes | srcs/toolbox/json.c:516-519 | a text that decodes with all tokens fitting gives a well-formed unnamed container; encoding it and decoding that gives the same tree iff no object member has an empty name |
| JsonCodec.EmptyNameIsLost | srcs/toolbox/json.c:1142-1144 | a text whose object has a member with an empty name: the tree it decodes to is written without that name and not read back |
| JsonCodec.StrReadBack | srcs/toolbox/json.c:1651-1727 | a string literal in front of any text is taken whole and nothing after it |
| JsonCodec.StrReadsALiteral | srcs/toolbox/json.c:1651-1727 | conversely, what the string matcher takes is a literal of the grammar |
| JsonCodec.RfcStringReadBack | srcs/toolbox/json.c:1665-1700 | a string literal of RFC 4627 is read back iff it contains no DEL |
| JsonCodec.NumberReadBack | srcs/toolbox/json.c:1280-1317 | a number of RFC 4627 followed by what cannot continue it is taken whole |
| JsonCodec.NumberSound | srcs/toolbox/json.c:1280-1405 | what the number matcher takes is a number of RFC 4627, whose last digit is cut off when it ends the text |
| JsonCodec.ValueSound | srcs/toolbox/json.c:1202-1727 | a value read has unnamed elements, one colon in the text per member and, when its tokens fit, well-formed tokens; member names may be empty |
| JsonGrammar.RfcTextReads | srcs/toolbox/json.c:1202-1727 | every text of RFC 4627 is accepted, and gives the tree it stands for, iff no string in it contains DEL |
| JsonGrammar.GrammarReads | srcs/toolbox/json.c:1202-1727 | the same of the wider grammar: other white space, words spelled out, a comma behind the last item, anything behind the root |
| JsonGrammar.AcceptedTexts | srcs/toolbox/json.c:1202-1727 | conversely a text is accepted iff it derives from that grammar without DEL in its strings, and its tree is that of any such derivation |
| JsonGrammar.BeyondTheRfc | srcs/toolbox/json.c:1407-1588 | "[t rue,]x" is accepted, and is an array that holds true |
| JsonGrammar.EncodingIsRfc | srcs/toolbox/json.c:1137-1200 | what is written for a well-formed tree with its names right is a text of RFC 4627 that stands for the tree |
| JsonGrammar.EncodingExamples | srcs/toolbox/json.c:1137-1200 | an array and an object as they are written, blanks included |
| Json.Lexer.EatWs | srcs/toolbox/lexer.c:191-203 | the cursor moves past white space; it fails only at the end of the text |
| Json.Lexer.Next | srcs/toolbox/lexer.c:319-335 | one character is consumed and the next one is seen |
| Json.Lexer.Skip | srcs/toolbox/lexer.c:319-335 | one character and the white space after it are consumed |
| Json.Lexer.GetMatch | srcs/toolbox/lexer.c:252-264 | the text between the recorded marks, when it fits a token buffer |
| Json.Node.SetKey | srcs/toolbox/json.c:443-451 | a key is accepted iff it fits a token buffer, and truncated to one otherwise |
| Json.Node.SetVal | srcs/toolbox/json.c:384-429 | only strings and numbers take a value; one that does not fit is refused and truncated |
| Json.Node.Add | srcs/toolbox/json.c:478-500 | only containers take children, at the end; arrays count them |
| Json.MatchInt | srcs/toolbox/json.c:1319-1345 | the integer part is matched as the grammar has it |
| Json.MatchFrac | srcs/toolbox/json.c:1357-1378 | the fraction is matched as the grammar has it |
| Json.MatchExp | srcs/toolbox/json.c:1380-1405 | the exponent is matched as the grammar has it |
| Json.MatchNumber | srcs/toolbox/json.c:1280-1317 | the cursor ends after the number, which the node receives |
| Json.MatchEscapedUnicode | srcs/toolbox/json.c:1729-1744 | exactly four hexadecimal digits are taken |
| Json.MatchBody | srcs/toolbox/json.c:1660-1700 | the characters of a literal up to its closing quote |
| Json.MatchString | srcs/toolbox/json.c:1651-1727 | the cursor ends after the literal, whose body the node receives |
| Json.MatchSeq | srcs/toolbox/json.c:1407-1441 | a keyword is matched letter by letter, white space allowed after each |
| Json.MatchElement | srcs/toolbox/json.c:1498-1514 | an element becomes a child of the array, or is refused as too deep |
| Json.MatchPair | srcs/toolbox/json.c:1590-1649 | a member becomes a child of the object under its name, or is refused as too deep |
| Json.MatchContainer | srcs/toolbox/json.c:1461-1588 | arrays and objects are matched as the grammar has them, with their children in order |
| Json.MatchValue | srcs/toolbox/json.c:1202-1227 | the matcher chosen by the first character fills the node with the value read |
| Json.DoParse | srcs/toolbox/json.c:1894-1947 | with and without a tree to build, the same texts are accepted, up to depth; the tree and the refusal of depth are stated for texts whose tokens fit |
| Json.DecodeText | srcs/toolbox/json.c:516-519 | when tokens fit, decoding succeeds iff the text is valid and not too deep, and the nodes hold its tree |
| Json.Validate | srcs/toolbox/json.c:534-538 | validation succeeds iff the parser as specified accepts the text, which JsonGrammar.AcceptedTexts characterizes |
| Json.DoEncode | srcs/toolbox/json.c:1137-1200 | a node, its children and its later siblings are appended as the encoding says; it fails iff some type is unknown |
| Json.EncodeNode | srcs/toolbox/json.c:581-597 | the text of a node and, when it is not a root, of its later siblings; for a whole tree, its encoding |
| BstTree.RotateLaws | srcs/toolbox/bst.c:355-385 | a rotation moves no entry in order, raises the child and keeps exact counters |
| BstTree.RotateBack | srcs/toolbox/bst.c:355-385 | rotating back restores the tree, counters included |
| BstTree.MinusWraps | srcs/toolbox/bst.c:355-385 | counters are subtracted modulo 2^64 |
| BstTree.PushBottomLaws | srcs/toolbox/bst.c:748-788 | insertion at the bottom puts the entry after all not greater than it; counters stay exact |
| BstTree.PushTopLaws | srcs/toolbox/bst.c:790-823 | insertion at the root does the same |
| BstTree.PoliciesAgree | srcs/toolbox/bst.c:696-823 | all policies and draws give one in-order sequence and keep order and counters |
| BstTree.PoliciesPlace | srcs/toolbox/bst.c:696-823 | insertion at the root puts the new entry there, at the bottom makes it a leaf and moves nothing, and the randomized one does the first iff the tree is empty or the draw says so; the new entry is what is found under its key, or else what was found there before |
| BstTree.PushBottomGrafts | srcs/toolbox/bst.c:748-788 | insertion at the bottom replaces one absent subtree by a leaf and counts it on the way there |
| BstTree.GraftedFinds | srcs/toolbox/bst.c:628-650 | a tree that has got a leaf is searched as before, and the leaf found only where nothing was |
| BstTree.FindNthLaws | srcs/toolbox/bst.c:895-916 | with exact counters the n-th entry in order is found, or nothing iff n is out of range |
| BstTree.FindNthIs | srcs/toolbox/bst.c:895-916 | whatever the counters, a node found holds the entry at its own place in order |
| BstTree.PromoteNth | srcs/toolbox/bst.c:825-846 | whatever the counters, the node they lead to comes to the root, with the nodes before it on its left; no entry moves in order and exact counters stay exact |
| BstTree.PromoteNthRoot | srcs/toolbox/bst.c:825-846 | with exact counters the node promoted holds the n-th entry, which leaves n entries on the left |
| BstTree.Balance | srcs/toolbox/bst.c:918-931 | entries, their order and their number are kept, whatever the counters, when these always lead to a node |
| BstTree.BalanceLaws | srcs/toolbox/bst.c:918-931 | exact counters always do, stay exact, and every node has half of its nodes, rounded down, on its left |
| BstTree.EvenlySplitHeight | srcs/toolbox/bst.c:918-931 | an evenly split tree of n nodes has height at most floor(log2 n) + 1 |
| BstTree.BalanceIsOptimal | srcs/toolbox/bst.c:918-931 | no tree of as many nodes is shorter than a balanced one |
| BstTree.SearchLaws | srcs/toolbox/bst.c:628-650 | a sorted tree is searched with success iff some key compares equal |
| BstTree.DeleteFindsWhatSearchFinds | srcs/toolbox/bst.c:862-893 | deletion reports found iff the search succeeds, and else leaves the tree alone |
| BstTree.DeleteRemoves | srcs/toolbox/bst.c:848-893 | the entry that the search finds goes, with exactly the entries lost between it and the one brought up from the right; whatever the counters |
| BstTree.DeleteLaws | srcs/toolbox/bst.c:848-893 | on any sorted tree, found iff some key compares equal; the entry that the search finds goes, the rest stays sorted, and nothing else goes iff the counters lose none |
| BstTree.ExactLosesNothing | srcs/toolbox/bst.c:825-860 | exact counters lose none |
| BstTree.DeleteKeepsCounters | srcs/toolbox/bst.c:848-893 | counters stay exact iff nothing was found or the node found was a leaf |
| BstTree.DeleteBreaksCounters | srcs/toolbox/bst.c:848-860 | a tree of three nodes whose root counter reads 0 after a deletion |
| BstTree.SecondDeletionLoses | srcs/toolbox/bst.c:825-893 | five nodes with exact counters: the deletion of one breaks a counter, and the deletion of a second one then loses two more |
| BstTree.BalanceFails | srcs/toolbox/bst.c:825-931 | after one deletion from five nodes with exact counters, balancing runs into a missing child and the third entry is not found |
| BstTree.CountAfterDelete | srcs/toolbox/bst.c:288-296 | after a deletion from a tree with exact counters, the count of the root is the number of entries iff the node found was not the root, or was a leaf |
| Bst.NodeRotate | srcs/toolbox/bst.c:355-385 | the rotation done on linked nodes is that of the tree they hold |
| Bst.NodePushTop | srcs/toolbox/bst.c:790-823 | the insertion at the root done on linked nodes gives the tree specified |
| Bst.NodePushBottom | srcs/toolbox/bst.c:748-788 | the insertion at the bottom, a loop that counts on the way down, gives the tree specified |
| Bst.NodePushRand | srcs/toolbox/bst.c:696-722 | the randomized insertion gives the tree specified, for every draw |
| Bst.NodePromoteNth | srcs/toolbox/bst.c:825-846 | the promotion on linked nodes gives the tree specified, whatever the counters, when they lead to a node |
| Bst.NodeJoinLr | srcs/toolbox/bst.c:848-860 | the join of linked trees gives the tree specified, whatever the counters |
| Bst.NodeDelete | srcs/toolbox/bst.c:862-893 | the deletion on linked nodes gives the tree specified, whatever the counters |
| Bst.NodeBalance | srcs/toolbox/bst.c:918-931 | the balancing of linked nodes gives the tree specified, whatever the counters, when they always lead to a node |
| Bst.NodeSearch | srcs/toolbox/bst.c:628-650 | the node returned holds the entry that the tree search finds |
| Bst.NodeFindNth | srcs/toolbox/bst.c:895-916 | the node returned holds the entry that the counters lead to, and there is none iff they lead to none |
| Bst.NodeForeach | srcs/toolbox/bst.c:683-694 | the callback sees the entries in order |
| Bst.Bst.constructor | srcs/toolbox/bst.c:136-163 | a new tree is empty, sorted and exactly counted |
| Bst.Bst.Push | srcs/toolbox/bst.c:201-214 | under every option and draw the entry goes after all not greater, and order and exact counters are kept; it is at the root under U_BST_OPT_PUSH_TOP, or when the draw says so, and else a leaf; what is found under its key is it, or else what was found before |
| Bst.Bst.Delete | srcs/toolbox/bst.c:227-237 | found iff some entry matches; the one that the search finds goes, and no other iff the counters lose none, which exact ones do not; exact counters stay exact iff the node found was a leaf |
| Bst.Bst.Search | srcs/toolbox/bst.c:251-257 | the first matching entry on the way down, or null iff there is none |
| Bst.Bst.FindNth | srcs/toolbox/bst.c:271-276 | the entry that the counters lead to, at its place in order; with exact counters the n-th, or null iff there are not that many |
| Bst.Bst.Count | srcs/toolbox/bst.c:288-296 | the count of the root; with exact counters the number of entries |
| Bst.Bst.Foreach | srcs/toolbox/bst.c:312-321 | every entry once, in order |
| Bst.Bst.Balance | srcs/toolbox/bst.c:334-341 | same entries, when the counters always lead to a node; exact counters do and stay exact, and the height is then the least possible |
| HmapSpec.RunQueued | srcs/toolbox/hmap.c:674-788 | over every run a cache queues exactly its objects, once each, and never holds more than max |
| HmapSpec.RunIsMap | srcs/toolbox/hmap.c:674-867 | over every run of puts, gets and deletions a plain map holds the keys put and not deleted since, with the value of the last such put or, when puts do not overwrite, of the first |
| HmapSpec.VictimGivesWay | srcs/toolbox/hmap.c:773-787 | a full cache asked to store a new key gives up the object of its victim slot and no other |
| HmapSpec.RunLatestFirst | srcs/toolbox/hmap.c:1648-1673 | over every FIFO or LRU run the queue lists the objects from the last used to the one used longest ago |
| HmapSpec.OldestGivesWay | srcs/toolbox/hmap.c:1629-1645 | what a full FIFO or LRU cache gives up is the object whose last use is oldest |
| HmapSpec.RunLeastUsedFirst | srcs/toolbox/hmap.c:1676-1724 | over every LFU run the queue counts the hits of its objects and lists the least used first |
| HmapSpec.LeastUsedGivesWay | srcs/toolbox/hmap.c:1612-1626 | what a full LFU cache gives up has been found no more often than anything else in it; of those never found it is the one stored last, and else the one whose last use is oldest |
| HmapSpec.RunHighestFirst | srcs/toolbox/hmap.c:1727-1765 | over every CUSTOM run the queue is in non-increasing priority |
| HmapSpec.LowestGivesWay | srcs/toolbox/hmap.c:1629-1645 | what a full CUSTOM cache gives up has the lowest priority, and is the oldest of those that have it |
| HmapSpec.PutNewKeyAgrees | srcs/toolbox/hmap.c:747-788 | the put of a new key on any map, queue and count does as specified when the queue is that of the map |
| HmapSpec.StuckFails | srcs/toolbox/hmap.c:773-787 | a full cache whose victim entry belongs to no object fails to put any new key but that one, links the object and stays as it is |
| HmapSpec.StuckForever | srcs/toolbox/hmap.c:773-787 | any number of puts of other new keys then fail, and each makes the map larger |
| HmapSpec.DeletionGetsStuck | srcs/toolbox/hmap.c:839-867 | a put, a deletion by the user and another put bring a cache of one object there |
| Hmap.Scan | srcs/toolbox/hmap.c:714-741 | the scan of a sorted bucket finds the key or the place for it, its early exit missing nothing |
| Hmap.NextPrime | srcs/toolbox/hmap.c:2030-2066 | the first table entry from the index on that is large enough, or failure iff there is none |
| Hmap.PrimesAscend | srcs/toolbox/hmap.c:2032-2042 | the table of primes is strictly ascending |
| Hmap.ChainReplace | srcs/toolbox/hmap.c:1024-1026 | an object that takes the place of another with its key keeps all buckets sorted and complete |
| Hmap.Hmap.Lookup | srcs/toolbox/hmap.c:1541-1609 | the object stored under a key, or null iff there is none |
| Hmap.Hmap.LoadIsBounded | srcs/toolbox/hmap.c:578-578 | a plain map is at most three quarters full, give or take one object at the size asked for |
| Hmap.Hmap.QueuePush | srcs/toolbox/hmap.c:1648-1673 | a new object enters at the head, one already queued moves there |
| Hmap.Hmap.QueuePushCount | srcs/toolbox/hmap.c:1676-1724 | an object found counts once more and moves behind those used as often |
| Hmap.Hmap.QueuePushCmp | srcs/toolbox/hmap.c:1727-1765 | an object enters before the first one whose priority is not above its own |
| Hmap.Hmap.QueueDel | srcs/toolbox/hmap.c:1768-1780 | the entry of one object leaves the queue |
| Hmap.Hmap.Pop | srcs/toolbox/hmap.c:1612-1645 | the victim leaves the map and the queue |
| Hmap.Hmap.Overwrite | srcs/toolbox/hmap.c:1010-1048 | a key there is replaced, map and queue, or refused under U_HMAP_OPTS_NO_OVERWRITE; either way the object found is handed back |
| Hmap.Hmap.New | srcs/toolbox/hmap.c:551-601 | an empty map with the least prime that is large enough, or null iff options or table forbid it |
| Hmap.Hmap.Put | srcs/toolbox/hmap.c:674-788 | map and queue become those of the specification; the object replaced, discarded or found is handed back; the table is replaced iff a plain map has reached its threshold, and fails, changing nothing, iff there is no larger prime |
| Hmap.Hmap.Get | srcs/toolbox/hmap.c:804-824 | the object found and the queue after it are those of the specification |
| Hmap.Hmap.Del | srcs/toolbox/hmap.c:839-867 | exactly the key is lost and its object returned; the queue stays as it is, so that it matches the map afterwards iff there is no policy or nothing was found |
| Hmap.Hmap.Copy | srcs/toolbox/hmap.c:1517-1538 | all objects of one map move into another that has room for them, without another resize |
| Hmap.Hmap.Resize | srcs/toolbox/hmap.c:2068-2110 | same objects in a table whose size is the next prime from three times the size asked for on, or nothing changed; the latter iff the table of primes ends too early |
| SequencerSpec.SequenceKeepsRanked | srcs/toolbox/test.c:1071-1138 | what every pick and eviction keeps: sequenced objects have their dependencies sequenced at lower ranks, currank is the highest rank and every rank up to it is in use |
| SequencerSpec.SucceedsIffOrdered | srcs/toolbox/test.c:1071-1105 | sequencing succeeds iff all dependencies name objects, none twice, and there is no cycle |
| SequencerSpec.SuccessRanks | srcs/toolbox/test.c:1042-1138 | on success ranks strictly respect dependencies, rank 0 means no dependency, currank is the highest rank |
| SequencerSpec.RanksGrow | srcs/toolbox/test.c:1107-1138 | an object ranks at least as high as any chain of dependencies below it is long |
| SequencerSpec.RankIsBehind | srcs/toolbox/test.c:1042-1138 | an object ranks one above the highest rank among the objects picked up to the last one it depends on |
| SequencerSpec.RanksAreDepthsIff | srcs/toolbox/test.c:1061-1070 | ranks are dependency depths iff, up to the last object that an object depends on, only objects less deep than it are picked |
| SequencerSpec.SameDepthOtherRank | srcs/toolbox/test.c:1061-1070 | five objects with ranks 0, 1, 2, 0, 3 and depths 0, 1, 2, 0, 1 |
| SequencerSpec.DepthOrderRanksByDepth | srcs/toolbox/test.c:1061-1070 | in every list ordered by depth ranks are depths |
| SchedulerSpec.OrderLaws | srcs/toolbox/test.c:1222-1251 | every object is handled once, after all it depends on |
| SchedulerSpec.FinalsSettle | srcs/toolbox/test.c:1222-1251 | each final status is that of the run or SKIPPED, as the final statuses of its dependencies decide |
| SchedulerSpec.SettledIsUnique | srcs/toolbox/test.c:1222-1251 | no other statuses agree with each other like that |
| SchedulerSpec.SkippedIffSpoiled | srcs/toolbox/test.c:1222-1251 | an object is skipped iff some transitive dependency ran and did not succeed |
| SchedulerSpec.AllPassIffEachWould | srcs/toolbox/test.c:1484-1494 | all objects of a list succeed iff each would by itself |
| SchedulerSpec.TallyAddsUp | srcs/toolbox/test.c:1412-1443 | the four counts add up to the total iff every status is a known one |
| SchedulerSpec.TallyCounts | srcs/toolbox/test.c:1412-1443 | the total counts all statuses, and the four counts those that are 0, 1, 2 and 3 |
| Sequencer.Search | srcs/toolbox/test.c:952-966 | an object with the identifier, or null iff there is none |
| Sequencer.DepDry | srcs/toolbox/test.c:1010-1025 | are all dependency records resolved? |
| Sequencer.DepsFailed | srcs/toolbox/test.c:1027-1040 | did some resolved dependency not succeed? |
| Sequencer.PickTop | srcs/toolbox/test.c:1042-1059 | the first object that is ready; the depth reached is raised to its rank |
| Sequencer.EvictId | srcs/toolbox/test.c:1107-1138 | ranks, records and marks of the whole list become those after the eviction |
| Sequencer.SequenceList | srcs/toolbox/test.c:1071-1105 | the list ends up sequenced as specified; success is reported iff all objects are |
| Sequencer.SequenceTest | srcs/toolbox/test.c:1096-1104 | suites and the cases of each are sequenced; success iff all of these lists succeed |
| Sequencer.SequencedIsLinked | srcs/toolbox/test.c:1124-1128 | after success every record points at the object it names |
| Sequencer.ScheduleCases | srcs/toolbox/test.c:1191-1251 | the statuses of the cases end as specified: a case with a dependency that did not succeed is skipped, any other has the status its function returned, or keeps its own when it has none |
| Sequencer.RunSuite | srcs/toolbox/test.c:1460-1500 | the cases end like that, are summarized, and the suite fails iff one of them did not succeed, keeping its status otherwise |
| Sequencer.SkipCases | srcs/toolbox/test.c:1502-1512 | all cases are marked as skipped |
| Sequencer.ScheduleSuites | srcs/toolbox/test.c:1191-1251 | suites end as specified; the cases of a suite are run iff the suite is |
| Sequencer.Summarize | srcs/toolbox/test.c:1412-1443 | the numbers of objects in each status |
| Sequencer.RunTest | srcs/toolbox/test.c:319-335 | the test passes iff all lists can be sequenced and each case has no test function or one that returns success; if they can, every suite and case ends skipped or with the status its cases or function give it |
| FnmatchSpec.AcceptsTheLanguage | srcs/missing/fnmatch.c:59-141 | without FNM_PERIOD what is accepted is exactly the language of the pattern; with it, no more |
| FnmatchSpec.StarsCollapse | srcs/missing/fnmatch.c:82-85 | several stars in a row stand for what one does |
| FnmatchSpec.PeriodAtTheStart | srcs/missing/fnmatch.c:75-90 | with FNM_PERIOD and without FNM_PATHNAME: the language less the strings beginning with a period where the pattern begins with a wildcard |
| FnmatchSpec.PeriodsBehindSlashes | srcs/missing/fnmatch.c:75-115 | with FNM_PERIOD and FNM_PATHNAME: the strings of the language in which a period at the beginning of a segment meets a wildcard at the beginning of the pattern segment of the same number only where an earlier segment has a star that no unquoted slash follows |
| FnmatchSpec.ProtectsIff | srcs/missing/fnmatch.c:75-115 | a pattern that accepts anything keeps wildcards and brackets from all leading periods, in every string, iff no segment beginning with a wildcard comes after one with a star that no unquoted slash follows, and none begins with a bracket that stands for a period |
| FnmatchSpec.ProtectsStartIff | srcs/missing/fnmatch.c:75-90 | without FNM_PATHNAME: iff the pattern does not begin with a bracket that stands for a period |
| FnmatchSpec.BracketTakesPeriod | srcs/missing/fnmatch.c:116-126 | "[!a]" accepts "." under FNM_PERIOD, whatever the other flags |
| FnmatchSpec.PeriodForgottenAfterStar | srcs/missing/fnmatch.c:106-115 | "*a/?" accepts "a/.", which "a/?" does not |
| FnmatchSpec.UnclosedMatchesNothing | srcs/missing/fnmatch.c:116-125 | a pattern with a bracket that is not closed matches no string |
| FnmatchSpec.NegativeMatchesNothing | srcs/missing/fnmatch.c:49-57 | a pattern with a negative character outside of brackets matches no string |
| FnmatchSpec.NegativeEnds | srcs/missing/fnmatch.c:143-177 | a range with a negative lower end has every character up to its upper end, and one with a negative upper end has none |
| FnmatchSpec.NegativeRange | srcs/missing/fnmatch.c:143-177 | a bracket with the range from the character 128 to "z" matches "a" iff char is signed |
| FnmatchSpec.PlainMatchesItself | srcs/missing/fnmatch.c:49-57 | a pattern without special characters matches itself iff char is unsigned or no character is above 127 |
| FnmatchLaws.CaseIsFolded | srcs/missing/fnmatch.c:49-57 | under FNM_CASEFOLD a string is accepted iff, pattern and string in small letters, it is without the flag |
| FnmatchLaws.CaseDoesNotMatter | srcs/missing/fnmatch.c:49-57 | patterns and strings that differ in case only are then matched alike |
| FnmatchLaws.PlainMatches | srcs/missing/fnmatch.c:127-138 | a plain pattern accepts exactly itself, up to case when that is folded, and what goes on behind it with a slash under FNM_LEADING_DIR |
| FnmatchLaws.QuotedMatches | srcs/missing/fnmatch.c:127-138 | so does any text with a backslash before each character, unless FNM_NOESCAPE is set |
| FnmatchLaws.LastBackslash | srcs/missing/fnmatch.c:127-132 | a backslash at the end stands for itself |
| FnmatchLaws.QuestionMatches | srcs/missing/fnmatch.c:70-80 | "?" accepts one character, but no slash under FNM_PATHNAME and no leading period under FNM_PERIOD |
| FnmatchLaws.StarMatches | srcs/missing/fnmatch.c:81-99 | "*" accepts everything, with the same exceptions, a slash being allowed under FNM_LEADING_DIR |
| FnmatchLaws.BracketMatches | srcs/missing/fnmatch.c:143-177 | a bracket accepts one character that lies in one of its ranges or, after "!" or "^", in none; quoted characters, a dash at the end and case included |
| FnmatchLaws.UnclosedMatches | srcs/missing/fnmatch.c:143-165 | an opening bracket that no closing one follows makes a pattern accept nothing |
| Fnmatch.RangeMatch | srcs/missing/fnmatch.c:143-177 | the place behind a closed bracket iff the character is in its set |
| Fnmatch.SkipStars | srcs/missing/fnmatch.c:82-85 | the place behind a run of stars |
| Fnmatch.StarUpToSlash | srcs/missing/fnmatch.c:100-104 | under FNM_PATHNAME a star before a slash need only be tried up to the first slash |
| Fnmatch.StarAtEnd | srcs/missing/fnmatch.c:92-99 | the shortcut for a star at the end decides as the language does |
| Fnmatch.TryEach | srcs/missing/fnmatch.c:106-115 | the loop over the string loses no way for the star to match |
| Fnmatch.MatchOne | srcs/missing/fnmatch.c:70-138 | one element is matched against one character iff it stands for it |
| Fnmatch.MatchStar | srcs/missing/fnmatch.c:81-115 | a star is decided, or reduced to the rest behind the first slash |
| Fnmatch.Match | srcs/missing/fnmatch.c:59-141 | 0 iff the string is accepted; without FNM_PERIOD, iff it is in the language |
| ConfigCodec.ComesBackAs | srcs/toolbox/config.c:1104-1314 | what any tree of good keys and values comes back as after a save and a load, failures included |
| ConfigCodec.RoundTrip | srcs/toolbox/config.c:1104-1314 | it comes back unchanged iff every node has a value or children but not both |
| ConfigCodec.SavingIsInjective | srcs/toolbox/config.c:1289-1314 | two such trees are never saved as the same text |
| ConfigCodec.EmptyLeavesAreLost | srcs/toolbox/config.c:1193-1198 | without nodes that have both, only leaves without a value are lost |
| ConfigCodec.LineReadBackIffFits | srcs/toolbox/config.c:1077-1102 | a line is read back iff it fits the buffer |
| ConfigCodec.LineIffNewline | srcs/toolbox/config.c:1077-1102 | a text without NUL and carriage return has a line to read iff it has a newline |
| ConfigCodec.LastLineIsLost | srcs/toolbox/config.c:1077-1102 | a last line that no newline ends adds nothing to the tree |
| ConfigCodec.PairReadBack | srcs/toolbox/config.c:1168-1206 | the line of a key and a value is read as that key and value |
| ConfigCodec.NameReadBack | srcs/toolbox/config.c:1193-1198 | the line of a key alone is read as a key whose group follows |
| ConfigLines.PairIsRead | srcs/toolbox/config.c:1121-1206 | a key and a value are read with any blanks around and between them, and with newlines or carriage returns behind |
| ConfigLines.NameIsRead | srcs/toolbox/config.c:1193-1198 | so is a key alone |
| ConfigLines.BraceIsRead | srcs/toolbox/config.c:1134-1166 | a brace is read iff there are only blanks around it, and else refused |
| ConfigLines.CommentDropped | srcs/toolbox/config.c:1350-1392 | what follows a "#" without a backslash before it is dropped |
| ConfigLines.EscapesUndone | srcs/toolbox/config.c:1350-1392 | a text with a backslash before each "#" comes out as it was |
| ConfigLines.EmptyLine | srcs/toolbox/config.c:1121-1133 | lines of blanks and comments are passed over |
| ConfigLines.LongLineIsBad | srcs/toolbox/config.c:1350-1357 | a line of 2048 characters or more is refused |
| ConfigLines.EndsOfLoads | srcs/toolbox/config.c:1134-1166 | a line refused, a brace that closes nothing and one without a name before it fail the load; a NUL ends it |
| ConfigLines.HashIsLost | srcs/toolbox/config.c:1289-1314 | a "#" in a value is written as it is, so that the value comes back cut off there |
| ConfigLaws.ValueIsSaved | srcs/toolbox/config.c:1289-1314 | the line for a value, and none for an include directive |
| ConfigLaws.GroupIsSaved | srcs/toolbox/config.c:1289-1314 | the lines for a group, between braces |
| ConfigLaws.TrimIsTrimmed | srcs/toolbox/misc.c:118-139 | trimming takes away exactly the blanks around a text |
| ConfigLaws.SetKeyIsSet | srcs/toolbox/config.c:1046-1075 | the value of the first child so named is changed when values are overwritten, else a child is added behind all others; a dotted key leads through the first child of each name, or a new one; nothing else changes |
| ConfigLaws.SetIsFound | srcs/toolbox/config.c:386-431 | what is found under a key that has been set is the value set, or the old one when it was there and values are not overwritten |
| ConfigLaws.OthersStay | srcs/toolbox/config.c:386-431 | under every other key, dotted or not, the same is found as before |
| ConfigOverwrite.LoadingOverSets | srcs/toolbox/config.c:1104-1227 | loading a saved tree over another one, values being overwritten, does what setting each of its values under its dotted key does |
| Config.Source.Gets | srcs/toolbox/config.c:1316-1348 | one buffer is filled up to a newline |
| Config.Source.Line | srcs/toolbox/config.c:1077-1102 | one line is put together from buffers |
| Config.TrimBlanks | srcs/toolbox/misc.c:118-139 | blanks are removed at both ends |
| Config.Parse | srcs/toolbox/config.c:1121-1181 | what a line says, comments removed; include directives and variables are told apart and not followed up |
| Config.RemoveComment | srcs/toolbox/config.c:1350-1392 | the comment goes, and the backslashes that escape a "#" |
| Config.ToStr | srcs/toolbox/config.c:1289-1314 | the text of a tree is appended |
| Config.GetChild | srcs/toolbox/config.c:342-368 | the first child with a key, or null iff there is none |
| Config.AddChild | srcs/toolbox/config.c:311-328 | a new child goes to the end |
| Config.GetSubkey | srcs/toolbox/config.c:386-431 | the node that a dotted key leads to, or null iff there is none |
| Config.SetValue | srcs/toolbox/config.c:444-514 | a value without variables is set, without the blanks around it |
| Config.DoSetKey | srcs/toolbox/config.c:1046-1075 | the tree becomes one in which a value without variables is set under a plain or dotted key, in both overwrite modes, and nothing else has changed |
| Config.DoLoad | srcs/toolbox/config.c:1104-1227 | the tree built from a text, the text left and the outcome are those specified; an include directive or a variable ends the load as not modelled |
| Config.SaveToBuf | srcs/toolbox/config.c:948-968 | the text of the node, root or not, or failure iff text and NUL do not fit |
| Config.LoadFromBuf | srcs/toolbox/config.c:984-1001 | a new root that holds what the text says, unless the load ends as not modelled |
| RingBuffer.Ring.Create | srcs/toolbox/rb.c:624-669 | an empty queue, or null iff the size is 0 |
| RingBuffer.Ring.Avail | srcs/toolbox/rb.c:330-333 | the room left: size less the bytes queued |
| RingBuffer.Ring.Mirror | srcs/toolbox/rb.c:428-453 | the halves of the buffer are equal again and nothing queued changes |
| RingBuffer.Ring.WriteContiguous | srcs/toolbox/rb.c:404-426 | as much as there is room for goes behind the queue |
| RingBuffer.Ring.Write | srcs/toolbox/rb.c:213-225 | the queue grows by what is written; more than the size of the buffer is refused |
| RingBuffer.Ring.ReadIncr | srcs/toolbox/rb.c:359-376 | the offsets are moved back together and the queue stays |
| RingBuffer.Ring.Read | srcs/toolbox/rb.c:244-256 | the oldest bytes are copied out and leave the queue |
| RingBuffer.Ring.FastRead | srcs/toolbox/rb.c:378-397 | the oldest bytes leave the queue and their place is returned, where they still stand |
| RingBuffer.Ring.Clear | srcs/toolbox/rb.c:296-301 | the queue is empty |
| PQueue.RootIsMax | srcs/toolbox/pqueue.c:276-313 | nothing in a heap is above its root |
| PQueue.BubbleUp | srcs/toolbox/pqueue.c:276-287 | the heap is in order again and holds the same items |
| PQueue.BubbleDown | srcs/toolbox/pqueue.c:289-313 | the heap is in order again and holds the same items, and the places behind it are untouched |
| PQueue.PQ.Create | srcs/toolbox/pqueue.c:89-111 | an empty queue, or null iff fewer than two places are asked for |
| PQueue.PQ.Push | srcs/toolbox/pqueue.c:171-194 | exactly the item pushed is added, unless the queue is full |
| PQueue.PQ.PeekMax | srcs/toolbox/pqueue.c:206-214 | an item of the queue with the highest key |
| PQueue.PQ.DelMax | srcs/toolbox/pqueue.c:226-251 | such an item is removed and nothing else |
| PQueue.Drain | srcs/toolbox/pqueue.c:226-251 | deleting until the queue is empty gives all items from the highest key to the lowest |
| Base64.TablesAgree | srcs/toolbox/b64.c:12-36 | the decoding table inverts the alphabet |
| Base64.AlphabetIs | srcs/toolbox/b64.c:12-13 | the alphabet is that of Table 1 of RFC 4648 |
| Base64.InAlphabet | srcs/toolbox/b64.c:15-36 | the decoding table knows its characters and no others |
| Base64.TestVectors | srcs/toolbox/b64.c:62-107 | test vectors of section 10 of RFC 4648 |
| Base64.GroupIs | srcs/toolbox/b64.c:188-194 | the shifts and masks of the encoder give the base-64 digits of the 24-bit group |
| Base64.ChunkEncode | srcs/toolbox/b64.c:188-194 | four characters for one, two or three bytes |
| Base64.EncodedAlphabet | srcs/toolbox/b64.c:62-107 | U_B64_LENGTH characters of the alphabet with the padding of RFC 4648 at the end |
| Base64.Encode | srcs/toolbox/b64.c:62-107 | success iff there is input and room; the encoding, and a NUL if one more fits |
| Base64.RoundTrip | srcs/toolbox/b64.c:62-201 | decoding an encoding gives the bytes back iff they fit the room |
| Base64.EncodedIsInjective | srcs/toolbox/b64.c:62-107 | different bytes have different encodings |
| Base64.Decode | srcs/toolbox/b64.c:124-172 | the bytes a text stands for, or failure iff it has none or they do not fit |
| Base64.DecodesIff | srcs/toolbox/b64.c:124-172 | a text is decoded iff it has characters of the alphabet and pads only, no quad of pads alone, and three bytes for each quad begun, less the pads, fit the room |
| Base64.CutShort | srcs/toolbox/b64.c:196-201 | of a text of two characters the bits that are missing are taken for ones |
| Base64.Reencodes | srcs/toolbox/b64.c:124-201 | a text decoded is encoded again as itself iff it is canonical: whole groups, pads only at the end, unused bits zero |
| Base64.EncodedIsCanonical | srcs/toolbox/b64.c:62-107 | every encoding is canonical |

## Left out

- Json.Lexer.GetMatch: when a match does not fit, the C code leaves the caller's uninitialised buffer as it
  is; here the buffer is then arbitrary, and tree contents are stated only for texts whose tokens fit.
- Json.MatchNumber: of a number too long for a token the source measures and shortens a buffer that was never
  filled (json.c 1300-1301), validating or not; what that does is not modelled, and the match succeeds here,
  as it does in Json.Validate.
- Json.MatchContainer: arrays and objects have two loops in the source that differ in brackets and items;
  here one loop is parameterized by the kind of container.
- JSON: indexing and the cache built from it, conversion of numbers, iteration, printing and error texts.
- Bst.NodePushRand: the draw is an arbitrary number; its distribution is not modelled.
- Bst.Bst.Push: counters are incremented without wrapping around; one that a deletion has made wrap around
  would do so.
- Search tree: key and value ownership, and freeing.
- Hmap.Hmap.Put: linear probing and the ownership options are not modelled; an object is put only once.
- Hmap.Hmap.Get: like the other operations on the class it needs a queue that matches the map; what a cache
  does once a deletion by the user has left a stale entry there is modelled on values only, and for puts
  of new keys only (HmapSpec.StuckForever).
- HmapSpec.StuckForever: of puts of new keys, and not of gets or overwrites in between.
- Hmap.Hmap.Copy: stated for a target with room for everything, as a resize has it; not for any target.
- Hash map: the hash functions are arbitrary functions into the buckets, clearing does not reset the count
  in the source and is not modelled, and the string interface on top of the map is left out.
- Sequencer.ScheduleCases: the parallel branch with child processes (1252-1305) is not modelled, nor are
  signals, timestamps and reports; a test function is the value it would return.
- Sequencer.SequenceTest: how dependency lists are filled is not modelled; a list with a name recorded twice
  is covered, and makes sequencing fail.
- Config.DoLoad: include directives and variables end a load with an outcome that stands for behaviour
  outside the model.
- Config.SetValue: the substitution of variables is not modelled, so that a value must have none, here and
  for Config.DoSetKey.
- RingBuffer.Ring.Write: the memory-mapped buffer and the wrapped mode are not modelled.
- PQueue.PQ.PeekMax: stated for a queue that is not empty, as its documentation demands; keys are real
  numbers, NaN left out.
- Base64.Decode: three bytes are stored at a time, so that the output must have room for three bytes more
  than are asked for; a character above 127, which indexes before the table where char is signed, is
  taken to have no entry.
- The modules for networking, files, logging, environment, URIs, strings, lists, arrays and memory: they do
  input and output or are thin containers.
