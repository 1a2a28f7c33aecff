# Proteogenomic mapping — a verified Dafny model of its core

The program maps peptides, which are short amino-acid sequences found by mass
spectrometry, back onto a genome. Each input reference sequence (DNA) is
upper-cased and cut into six reading frames: three forward (F1, F2, F3) and
three on the reverse complement (R1, R2, R3). Each frame is translated codon by
codon with the codon table of an NCBI genetic code.

An Aho–Corasick automaton built from the whole peptide list runs over the
translated frame. Every state where a peptide ends produces a match record
holding:

- the reverse translated peptide (RTP), which is the stretch of DNA coding for
  the peptide;
- its extension to an expressed protein sequence tag (ePST);
- the coordinates of both, adjusted for the frame.

One of four policies extends an RTP to an ePST:

- **Prokaryote**: back to the in-frame start codon after the nearest in-frame
  stop, and forward to the next in-frame stop.
- **Eukaryote**: out to the nearest splice-site motifs or start/stop codons.
- **GeneSplicer**: out to the nearest predicted acceptor or donor sites, or
  start/stop codons.
- **Codon**: a fixed number of codons on each side.

The genetic code comes from the NCBI genetic-code file. A four-state tokenizer
splits the file into tokens and a recursive-descent parser reads its tables. A
table gives the codon map, the start codons and the stop codons.

The model is split into modules as follows:

| file | module | models |
|---|---|---|
| `outcomes.dfy` | `Outcomes` | `Result` and `Option`; a thrown exception becomes `Err` |
| `peptides.dfy` | `Peptides` | peptides, their natural order, and the stable sort the automaton's constructor applies |
| `translator.dfy` | `Translation` | `Translator`: codon translation, complement, reverse complement, reading frames |
| `automaton.dfy` | `Automaton` | the automaton's states as values, with the trie, fail-link, closure and pattern properties, and the run over a text |
| `construction.dfy` | `Construction` | the invariants of the three construction passes and the theorem about the finished automaton |
| `matching.dfy` | `Matching` | what the finished automaton reports after any text, against a reference answer computed from the peptide list alone |
| `state_machine.dfy` | `AhoCorasick` | `StateMachine` as a class whose node list its methods update in place |
| `mapper.dfy` | `Mapping` | `Mapper`: mode selection, the four ePST policies, `contains`, coordinate transforms, scanning a frame and searching six frames |
| `worked_example.dfy` | `WorkedExample` | the mapper's F1 test example, worked through the Prokaryote policy and the coordinate transform |
| `tokenizer.dfy` | `Tokens` | `Tokenizer` as a class whose fields `analyze` advances, against a reference lexer |
| `code_table.dfy` | `CodeTables` | `CodeTable`: its grammar, and the codon map and start/stop codons derived from it |
| `parser.dfy` | `CodeTableParser` | `Parser` as a class, with the grammar of the whole file |
| `code_table_files.dfy` | `CodeTableFiles` | the static entry points `getCodeTables` and `getCodeTable` |

## Model

| member | source | states |
|---|---|---|
| Translation.Translate | src/proteogenomicmapping/Translator.java:67-73 | a codon missing from the table translates to "X"; with a table whose values are not empty, the result is never empty |
| Translation.TranslateSequence | src/proteogenomicmapping/Translator.java:46-57 | the protein has one residue per whole codon (a trailing partial codon is dropped), and residue k is the translation of bases 3k..3k+2 |
| Translation.ResiduesSlice | src/proteogenomicmapping/Translator.java:46-57 | translating whole codons k..m of a sequence gives residues k..m of the translation of the whole sequence |
| Translation.ResiduesAppend | src/proteogenomicmapping/Translator.java:46-57 | translation distributes over concatenation at a codon boundary |
| Translation.Complement | src/proteogenomicmapping/Translator.java:81-111 | exactly the ten one-letter strings A, C, G, T, N (in either case) have a complement, which is the paired upper-case base (N pairs with N); any other key finds nothing |
| Translation.ComplementTwice | src/proteogenomicmapping/Translator.java:99-111 | complementing a base twice gives the base back, upper-cased |
| Translation.GetReverseComplement | src/proteogenomicmapping/Translator.java:366-380 | the loop over the reversed sequence appends each character's complement, or the text "null" for a character without one; the result is the `ReverseComplement` function |
| Translation.ReverseComplementAt | src/proteogenomicmapping/Translator.java:366-380 | on a sequence of bases the reverse complement has the same length, and position i holds the complement of the base i places from the end |
| Translation.ReverseComplementTwice | src/proteogenomicmapping/Translator.java:366-380 | the reverse complement of a base sequence is again a base sequence, and taking it twice gives the upper-cased sequence |
| Translation.ReadingFrameAt | src/proteogenomicmapping/Translator.java:340-358 | over the base alphabet, frame ?1/?2/?3 drops 0/1/2 leading bases (no more than there are); F frames read the sequence forwards and R frames read its reverse complement, and any other frame name acts as R3 |
| Peptides.SortNumbered | src/proteogenomicmapping/StateMachine.java:51-58 | the sort is a permutation of the numbered list and orders it by sequence, with equal sequences kept in arrival order (stable) |
| Peptides.SortedLastIndex | src/proteogenomicmapping/StateMachine.java:51-55 | the id recorded for a sequence is -1 exactly when no peptide has it; otherwise it is a 1-based index whose peptide has that sequence, and no later peptide has it |
| Automaton.WithChildTrie | src/proteogenomicmapping/StateMachine.java:108-126 | adding a child keeps the trie shape and every existing label, and the new state spells the parent's label plus the edge character, which no old state spells |
| Automaton.TrieSound | src/proteogenomicmapping/StateMachine.java:264-287 | in a trie every edge leads to a state in range whose label is the source label plus the edge character |
| Automaton.FailTargetSuffix | src/proteogenomicmapping/StateMachine.java:170-204 | the fail link chosen for a state spells a suffix of that state's label |
| Automaton.FailTargetLevel | src/proteogenomicmapping/StateMachine.java:170-204 | the fail link of a non-root state has a smaller level (a shorter label), so fail chains end at the root |
| Automaton.ChainTargetSound | src/proteogenomicmapping/StateMachine.java:174-191 | following the parent's fail chain to the first state with an edge for the character finds a state whose label is a suffix of the chain start's label plus that character |
| Automaton.InheritSound | src/proteogenomicmapping/StateMachine.java:196-200 | taking the fail target's pattern when a state has none keeps every reported pattern a suffix of the state's label |
| Automaton.ClosureComplete | src/proteogenomicmapping/StateMachine.java:212-259 | after closure every state has an edge for every character its fail target has one for |
| Automaton.BfsComplete | src/proteogenomicmapping/StateMachine.java:150-166 | the breadth-first walk over the trie reaches every state |
| Automaton.NextState | src/proteogenomicmapping/StateMachine.java:289-295 | the next state is the edge's target when there is an edge for the character, otherwise the root |
| Automaton.RunSound | src/proteogenomicmapping/StateMachine.java:289-295 | after any text the automaton's state spells a suffix of the text |
| Automaton.MatchSound | src/proteogenomicmapping/Mapper.java:206-216 | soundness: a pattern id reported after reading a text is a 1-based index of a peptide whose sequence ends the text (completeness and which id is reported: `Matching.MatchExact`) |
| Matching.BestMatchSpec | src/proteogenomicmapping/StateMachine.java:44-68 | the reference answer for a text is -1 exactly when no peptide's sequence ends the text; otherwise it is the 1-based position of a peptide that ends it, at least as long as every other that does, and no later peptide has the same sequence |
| Matching.LinkedLongest | src/proteogenomicmapping/StateMachine.java:145-206 | after the fail-link pass the nodes still form a trie with sound, level-decreasing fail links, and every fail link leads to the deepest state whose label is a proper suffix of the state's label |
| Matching.StepTarget | src/proteogenomicmapping/StateMachine.java:250-256 | once the transitions are closed, the next state on a character is the state found by following the fail chain to the first state with an edge for it, or the root when there is none |
| Matching.RunDeepest | src/proteogenomicmapping/StateMachine.java:212-259 | reading any text from the root ends in the deepest state whose label is a suffix of the text |
| Matching.BuiltOutputs | src/proteogenomicmapping/StateMachine.java:235-243 | after both passes the root keeps its own pattern id, and every other state keeps its own or, having none, takes its fail target's final id |
| Matching.OutputBest | src/proteogenomicmapping/StateMachine.java:196-243 | every state's final pattern id is the reference answer for its own label |
| Matching.BuiltMatches | src/proteogenomicmapping/StateMachine.java:44-68 | the three construction passes give an automaton that, after any text, carries the reference answer for that text |
| Matching.MatchExact | src/proteogenomicmapping/Mapper.java:206-210 | after any text the pattern id is -1 exactly when no peptide ends the text; otherwise it names a peptide ending it that is at least as long as every other, at the last position its sequence occupies |
| Construction.BuiltReaches | src/proteogenomicmapping/StateMachine.java:90-138 | after the tree is built, every peptide of the list is spelled by some state |
| Construction.LinkedInherits | src/proteogenomicmapping/StateMachine.java:145-206 | after the fail-link pass every state keeps its own pattern or takes its fail target's pattern |
| Construction.CompletedClosure | src/proteogenomicmapping/StateMachine.java:212-259 | the transition pass keeps each state's own edges and adds the missing ones from its fail target |
| Construction.BuiltAutomaton | src/proteogenomicmapping/StateMachine.java:44-68 | the automaton built from the sorted list is sound, its fail links are sound, and its transitions are closed; reading any peptide from the root ends in the state that spells it and reports the largest 1-based position at which that sequence occurs in the list as read |
| AhoCorasick.StateMachine.constructor | src/proteogenomicmapping/StateMachine.java:44-68 | the peptide list becomes the stably sorted list; the node list satisfies everything `BuiltAutomaton` states, and after any text its state carries the longest peptide ending the text, at its last position, or -1 when none ends it (`Matching.Matches`) |
| AhoCorasick.StateMachine.ConstructTree | src/proteogenomicmapping/StateMachine.java:90-138 | the node list becomes a trie with no fail links; each peptide's end state records its id and every state's level is its depth |
| AhoCorasick.StateMachine.ComputeFailureLinks | src/proteogenomicmapping/StateMachine.java:145-206 | the node list becomes the fail-linked form of the trie, with each state visited in breadth-first order |
| AhoCorasick.StateMachine.ComputeStateTransitions | src/proteogenomicmapping/StateMachine.java:212-259 | the node list becomes the closed form of the fail-linked trie |
| AhoCorasick.EdgeTargets | src/proteogenomicmapping/StateMachine.java:163-166 | the children listed are exactly the edge targets, without repetition when targets are distinct |
| AhoCorasick.FollowFailChain | src/proteogenomicmapping/StateMachine.java:174-191 | the loop up the fail chain finds what `ChainTarget` defines |
| AhoCorasick.LinkState | src/proteogenomicmapping/StateMachine.java:172-205 | one state gets its fail link and inherited pattern as `Relinked` defines |
| AhoCorasick.CopyMissingEdges | src/proteogenomicmapping/StateMachine.java:250-254 | the state keeps its own edges and takes each edge of the fail target it lacks |
| AhoCorasick.CloseState | src/proteogenomicmapping/StateMachine.java:235-256 | one state is closed as `Closed` defines and no other state changes |
| Mapping.SelectMode | src/proteogenomicmapping/Main.java:182-189 | Eukaryote exactly when requested; otherwise Codon exactly when the codon count is positive; otherwise GeneSplicer exactly when a splicer file is given; otherwise Prokaryote |
| Mapping.StartsWithCut | src/proteogenomicmapping/Mapper.java:608-617 | `contains` accepts a motif at a position exactly when the reference has room for it there and the cut equals the motif |
| Mapping.StopBackNearest | src/proteogenomicmapping/Mapper.java:419-425 | walking back from the RTP start finds the nearest in-frame stop, or 0 when there is none |
| Mapping.StartForwardFirst | src/proteogenomicmapping/Mapper.java:427-439 | walking forward from the stop finds the first in-frame start codon before the RTP, or passes the RTP start |
| Mapping.StopForwardFirst | src/proteogenomicmapping/Mapper.java:441-453 | walking forward from the RTP end finds the first in-frame stop, or runs off the reference |
| Mapping.ProkaryoteStart | src/proteogenomicmapping/Mapper.java:416-466 | the prokaryote ePST starts in frame; when it starts before the RTP it starts at a start codon, with no in-frame stop between it and the RTP |
| Mapping.ProkaryoteEnd | src/proteogenomicmapping/Mapper.java:416-466 | the prokaryote ePST ends with the first in-frame stop after the RTP, or at the end of the reference |
| Mapping.FindEpstProkaryote | src/proteogenomicmapping/Mapper.java:416-466 | the three loops compute the prokaryote extension |
| Mapping.SpliceBackNearest | src/proteogenomicmapping/Mapper.java:481-500 | the walk back (the same in Eukaryote and GeneSplicer mode) finds the nearest position where an in-frame start or stop codon, or a splice boundary, begins the ePST, or 0 |
| Mapping.SpliceForwardFirst | src/proteogenomicmapping/Mapper.java:505-520 | the walk forward (the same in both modes) finds the first position where an in-frame stop codon or a splice boundary ends the ePST, or the end of the reference |
| Mapping.SplicedBoundaries | src/proteogenomicmapping/Mapper.java:477-596 | the Eukaryote and GeneSplicer ePSTs start at the nearest boundary before the RTP and end at the first boundary after it |
| Mapping.FindEpstSpliced | src/proteogenomicmapping/Mapper.java:477-596 | both loops compute the spliced extension |
| Mapping.CodonExtension | src/proteogenomicmapping/Mapper.java:390-406 | the ePST reaches the given number of codons past each end of the RTP, clamped to the reference; it is the reference cut between those ends |
| Mapping.FindEpstCodon | src/proteogenomicmapping/Mapper.java:390-406 | computes the codon extension |
| Mapping.FindEpst | src/proteogenomicmapping/Mapper.java:370-388 | dispatches on the mode to the four policies |
| Mapping.EpstHoldsRtp | src/proteogenomicmapping/Mapper.java:370-388 | whatever the policy, the ePST is a cut of the reference that contains the RTP at its own offset |
| Mapping.PlaceKeepsStarts | src/proteogenomicmapping/Mapper.java:244-308 | the coordinate transform keeps the RTP and ePST starts equal exactly when they were equal, which decides whether a start codon is reported |
| Mapping.EpstLengthOneShort | src/proteogenomicmapping/Mapper.java:244-300 | in F1 and the reverse frames the reported ePST length is one less than the number of bases in the ePST |
| Mapping.ReverseCoordinatesDescend | src/proteogenomicmapping/Mapper.java:246-298 | in a reverse frame both pairs of reported coordinates run from high to low |
| WorkedExample.ExampleF1 | test/proteogenomicmapping/MapperTest.java:39-58 | in the test's F1 example with the standard start and stop codons, the RTP at bases 33..45 has the Prokaryote ePST at 21..56, reported at one-based 34..45 and 22..57 with length 35 |
| Mapping.ReportShape | src/proteogenomicmapping/Mapper.java:212-330 | a reported record `Describes` its match: it names the matched peptide, frame and sequence, and holds the three-bases-per-residue RTP ending after the current codon; the policy's ePST succeeds and the record holds it and its translation; the four coordinates are that RTP and ePST placed by the frame's transform; the ePST length is the distance between its coordinates; the strand is "-" exactly in a reverse frame, else "+"; the start codon is "-" exactly when the ePST starts with the RTP, and otherwise the ePST's first three bases |
| Mapping.DescribeShape | src/proteogenomicmapping/Mapper.java:244-330 | a record built for one RTP and ePST `Describes` them (the same facts) |
| Mapping.ReportSucceeds | src/proteogenomicmapping/Mapper.java:212-308 | a match of a non-empty peptide that fits in the frame always yields a record when the frame is named and the codon count is usable |
| Mapping.ReportMatch | src/proteogenomicmapping/Mapper.java:212-308 | builds the record for one match |
| Mapping.DescribeMatch | src/proteogenomicmapping/Mapper.java:244-330 | the coordinate transform and start-codon cut for one match |
| Mapping.ScanResidue | src/proteogenomicmapping/Mapper.java:197-330 | one step of the scan advances the automaton by one residue and appends that residue's record |
| Mapping.SearchFrame | src/proteogenomicmapping/Mapper.java:189-332 | the scan loop produces the records of every residue but the last, in order |
| Mapping.ReportsAgree | src/proteogenomicmapping/Mapper.java:197-216 | the records of the first n residues depend only on those n residues |
| Mapping.LastResidueIgnored | src/proteogenomicmapping/Mapper.java:197 | the last residue of a frame never affects the records |
| Mapping.ReportsTranslateBack | src/proteogenomicmapping/Mapper.java:189-332 | when the mapper holds the list the automaton was built from, each record's RTP translates back to the record's peptide, and the scan never fails when it can succeed |
| Mapping.SearchIn | src/proteogenomicmapping/Mapper.java:143-177 | one frame of a reference: cut, translate, scan |
| Mapping.Search | src/proteogenomicmapping/Mapper.java:143-177 | the reference is upper-cased and its six frames are searched in the order F1, F2, F3, R1, R2, R3 |
| Mapping.SearchFaithful | src/proteogenomicmapping/Mapper.java:143-177 | with the corrected peptide lookup, a search succeeds, and every record names the reference and one of the six frames, with an RTP that translates to its peptide |
| Mapping.MatchRecorded | src/proteogenomicmapping/Mapper.java:197-216 | with an automaton that matches the mapper's list, a scan that does not fail records, at every residue whose prefix some peptide ends, the record of the longest such peptide |
| Mapping.RecordMatched | src/proteogenomicmapping/Mapper.java:197-216 | conversely, every record of the scan is the record, at some residue, of the longest peptide ending the residues read up to it |
| Mapping.FrameInSearched | src/proteogenomicmapping/Mapper.java:143-177 | when the search succeeds, each of the six frames' scans succeeds and its records are records of the search |
| Mapping.SearchComplete | src/proteogenomicmapping/Mapper.java:143-216 | with an automaton that matches the mapper's list, the search of a reference succeeds and records, in each frame and at every residue but the last whose prefix some peptide ends, the longest such peptide |
| Mapping.MisorderedSorted | src/proteogenomicmapping/StateMachine.java:58 | sorting the list [B, A] swaps its two peptides |
| Mapping.SortedLookupMisreports | src/proteogenomicmapping/Mapper.java:212-216 | as written, a match of "A" is reported as the peptide "B", whose sequence is not what the RTP translates to |
| Tokens.ContainsCharacter | src/codetable/Tokenizer.java:39-51 | the linear search answers whether the needle is in the array |
| Tokens.CharacterClasses | src/codetable/Tokenizer.java:29-31 | the control, white-space and digit arrays hold exactly the characters of the three classes |
| Tokens.JoinedFromKeptLines | src/codetable/Tokenizer.java:82-96 | every character of the text comes from a line that does not start with "--" |
| Tokens.Step | src/codetable/Tokenizer.java:109-124 | each step either consumes one character, or hands the current character back to Start after finishing an integer or word; tokens are only ever appended, at most one per step |
| Tokens.TokenizeIsLex | src/codetable/Tokenizer.java:102-236 | running the state machine to the end of the text yields exactly the reference lexer's tokens: controls, integers, words and strings, with an unterminated final token dropped |
| Tokens.Tokenizer.constructor | src/codetable/Tokenizer.java:82-96 | the text is the non-comment lines joined together, and the machine starts in Start at index 0 with no tokens |
| Tokens.Tokenizer.GetTokens | src/codetable/Tokenizer.java:102-107 | runs the machine to the end of the text and returns its tokens |
| Tokens.Tokenizer.Analyze | src/codetable/Tokenizer.java:109-124 | dispatches on the state and advances the machine by one step |
| Tokens.Tokenizer.Start | src/codetable/Tokenizer.java:126-169 | one step of the Start state |
| Tokens.Tokenizer.Integer | src/codetable/Tokenizer.java:171-191 | one step of the Integer state |
| Tokens.Tokenizer.Word | src/codetable/Tokenizer.java:193-213 | one step of the Token (bare word) state |
| Tokens.Tokenizer.String | src/codetable/Tokenizer.java:215-236 | one step of the String state |
| Tokens.TokenizeLines | src/codetable/Tokenizer.java:82-107 | tokenizing the lines of a file gives the lexer's tokens of the joined non-comment lines |
| CodeTables.CodeAt | src/codetable/CodeTable.java:75-206 | a token check succeeds exactly when the token exists and has the expected code, and it throws index-out-of-bounds exactly when the token is missing |
| CodeTables.ValueAt | src/codetable/CodeTable.java:75-206 | the same for a check of a token's text |
| CodeTables.TableGrammar | src/codetable/CodeTable.java:75-206 | a table is read from a position exactly when the tokens there are '{', name entries, the labelled id, ncbieaa, sncbieaa and three base rows, and '}', and the table holds those values |
| CodeTables.PrimaryNameIsFirst | src/codetable/CodeTable.java:265-271 | the primary name is the first name entry, or "" when the table has none |
| CodeTables.ReadTable | src/codetable/CodeTable.java:75-206 | the constructor's checks compute the table grammar's result |
| CodeTables.ReadNames | src/codetable/CodeTable.java:84-99 | the names loop reads name entries until a token that is not "name" |
| CodeTables.ReadFields | src/codetable/CodeTable.java:101-206 | the checks after the names |
| CodeTables.CodonMapContents | src/codetable/CodeTable.java:214-223 | the codon map's keys are exactly the columns' codons, each mapped to the one-letter amino acid of the last column that has that codon |
| CodeTables.GetCodonTable | src/codetable/CodeTable.java:214-223 | the loop builds the codon map, or throws when a base row is shorter than ncbieaa |
| CodeTables.GetStartCodons | src/codetable/CodeTable.java:230-241 | the start codons are the codons of the columns where sncbieaa has 'M' |
| CodeTables.GetEndCodons | src/codetable/CodeTable.java:248-259 | the stop codons are the codons of the columns where ncbieaa has '*', over the columns of sncbieaa |
| CodeTables.StopCodonsTranslateToStop | src/codetable/CodeTable.java:214-259 | for a well-formed table, a codon is a stop codon exactly when the codon map sends it to "*", and every start codon is in the codon map |
| CodeTableParser.Header | src/codetable/Parser.java:44-62 | the header is accepted exactly when the file begins with a bare word and `: : = {`, and its name is that word |
| CodeTableParser.Tables | src/codetable/Parser.java:39-70 | a parse succeeds only when the header and the comma-separated chain of tables do, and it maps the tables by primary name; a bad header gives its own error |
| CodeTableParser.ChainLinked | src/codetable/Parser.java:64-67 | the chain read from a position is a list of tables exactly when each table is followed by a comma and the next one, and the last by a token that is not a comma |
| CodeTableParser.IndexedKeys | src/codetable/Parser.java:76-86 | the map's keys are the primary names of the tables read, together with the keys already there |
| CodeTableParser.IndexedLast | src/codetable/Parser.java:76-86 | under a primary name is the last table read with that name |
| CodeTableParser.IndexedKeyed | src/codetable/Parser.java:76-86 | a map keyed by primary name stays so when tables are added |
| CodeTableParser.Parser.constructor | src/codetable/Parser.java:34-37 | the parser holds the tokens, an empty map and its cursor at the first token |
| CodeTableParser.Parser.GetNextTable | src/codetable/Parser.java:76-86 | a table read at the cursor is put under its primary name; the cursor moves one past the token after it, and the answer is whether that token is a comma; a bad table leaves map and cursor unchanged |
| CodeTableParser.Parser.GetCodeTables | src/codetable/Parser.java:39-70 | the header check, then the loop over tables, compute `Tables`; on success the map holds the result and the name is the file's name |
| CodeTableParser.PrependedNext | src/codetable/Parser.java:64-67 | one more table read keeps the tables read so far, followed by the rest of the chain, equal to the whole chain |
| CodeTableFiles.ReKey | src/codetable/CodeTable.java:51-54 | re-keying puts each table under its primary name and keeps only the given tables; on a map already keyed so, nothing changes |
| CodeTableFiles.GetCodeTables | src/codetable/CodeTable.java:41-58 | tokenize, parse and re-key: the result is the parsed map of tables by primary name |
| CodeTableFiles.GetCodeTable | src/codetable/CodeTable.java:29-32 | the table under the given primary name, or none |
| CodeTableFiles.LookupNone | src/codetable/CodeTable.java:29-32 | no table is found under a name exactly when no table of the file has that primary name |
| CodeTableFiles.LookupFindsLast | src/codetable/CodeTable.java:29-32 | the table found under a name is the last table of the file with that primary name |

## Left out

- File I/O is not modelled. Peptide, reference, splice-site and code-table files become parameters (a list of lines or sequences). Match records are returned instead of written to the three output files, and the output headers are not modelled.
- Printing, the GUI (`MainFrame`), the FASTA and tabbed readers, the GeneSplicer output reader, `findUniqueEpsts` and the state machine's `write` are outside this model.
- The peptide probability is carried as a `real` that is only passed through. Floating-point formatting is not modelled.
- Exceptions (index out of bounds, invalid token, a missing table) become an `Err` result. The partial state an exception leaves behind, such as records already written or fields already set, is dropped.
- CodeTableParser.Parser.GetCodeTables: on an error it does not state what the parser's map, name and cursor hold, only the error returned.
- The tokenizer's initial current token, and the parser's initial name, are the empty string rather than `null`.
- `toUpperCase` is modelled on ASCII letters only; other characters are left unchanged.
- The `HashMap` iteration order in `getCodeTables`' re-keying is an arbitrary choice (`:|`). The sorted order of the `TreeMap` is not modelled: the result is a `map`.
- The mapper's constructor and the entry point's wiring are out of scope. So is the default `Translator()` constructor with its built-in standard code table; the model reads the table from a code-table file.
- `constructTree(start, limit, usePeptideNumericID)` is modelled only as the constructor calls it, with `(0, size, true)`.
- The automaton's nodes are a `seq` of node values that the class's methods reassign; node objects that share structure are not modelled. The `indices` hash map of the source is modelled as each peptide's 1-based position, a `Numbered` list.
- Translation.Translate: the contract states only the "X" fallback and that the result is not empty. For a known codon the result is the table's entry; `translateSequence` keeps only its first letter, and a table read from a code-table file holds one-letter entries (`CodonMapContents`).

## Findings

| source | as written | input that shows it | evidently intended | confidence | as-written member | corrected member |
|---|---|---|---|---|---|---|
| src/proteogenomicmapping/Mapper.java:212-216 with src/proteogenomicmapping/StateMachine.java:51-58 | The automaton records each peptide's 1-based position in the list as read. The constructor then sorts that same list in place, so the mapper, which shares the list, looks the position up in the sorted list. | The peptides p1 "B" and p2 "A", in that order. The state for "A" records 2, and position 2 of the sorted list is p1 "B". A match of "A" is therefore reported as peptide "B", whose sequence is not what its RTP translates to. | The pattern id should name the peptide that was matched, so the lookup should use the list in its original order (or the automaton should record sorted positions). | not executed | Mapping.SortedLookupMisreports | Mapping.SearchFaithful |
