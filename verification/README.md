# logsuck in Dafny

logsuck collects log events, stores them in SQLite and answers queries written in a small pipeline language. This
project models its core in Dafny and proves what the parts guarantee, and what they guarantee together:

- **The query language.** `Lexer`, `LexerLaws`, `TokenCursor`, `SearchParser`, `SearchLaws`, `PipelineParser` and
  `PipelineLaws` model the tokenizer and the two recursive-descent parsers as the loops over a cursor that they are. A
  printer for token lists, searches and commands says what a text means, and the round trips are proved on the text;
  `QueryLaws` says which search a query text amounts to.
- **The pipeline.** `PipelineCompiler` drops the steps before the last generator, checks types and wires channels.
  `PipelineNetwork` is the execution: one goroutine for each step, channels of capacity 100, a consumer, cancellation
  at any time, every interleaving; `PipelineCancellation` and `PipelineFeeder` say what a cancellation can leave behind.
  `Steps` and `SearchStep` model what the built-in steps do to a batch.
- **Ingestion.** `FileWatching` cuts read chunks into events, `Ingestion` is the forwarder's buffer with its retries
  over an unreliable link and the recipient behind it, `EventStore` the Events and EventRaws tables with their counter
  and uniqueness key.
- **Reading back.** `EventStream` is keyset paging while the tables change, with the retention task built on it.
  `JobStats` is what any number of concurrent jobs store about their results, and `SearchJobs` goes all the way from
  the database to a search job's stored result.
- **Tasks.** `TaskManager` is the protocol between UpdateConfig and the workers it cancels and starts.

Each loop is proved against a function on its input, and what such a function computes is then said once more without
it: as positions, columns, counts and bytes written out (`Steps.WhereBatch`, `EventStore.AddAllExactly`,
`FileWatching.ContentsByTurns`, `JobStats.HandledExactly`, `SearchLaws.WantedMeaning` and others of this kind).

Objects that the program updates in place are classes whose methods are proved against functions on their contents;
concurrent protocols are transition systems whose runs are all the possible interleavings. Timestamps are integers;
strings are sequences of bytes; regular expressions, time parsing and file configurations are parameters; a database
write, a POST or a read may have any outcome its interface allows.

Where the code does something that its documentation or its names do not suggest, the model follows the code, and
there is a statement that says exactly when the difference shows:

- tokenize does not return on a text with a `!` outside quotes that is not followed by `=` (`Lexer.LoopHaltsIff`); a
  query meets it once as a whole and again, without its quotes, as the value of each search step
  (`PipelineCompiler.CompileReturnsIff`, `PipelineCompiler.QuotedTextReturnsIff`);
- `""` denotes the text `"`, and a quoted text loses the tail of a last rune of several bytes (`LexerLaws.EmptyQuotes`,
  `LexerLaws.LastRuneIsCut`);
- a command value without quotes is read as an option name and lost, unless another bare word stands before it, and
  white space after a final value is an error (`PipelineLaws.ValueComesBackIff`, `PipelineLaws.AcceptedIff`);
- the implicit search loses its quotes, so that a quoted text is not one fragment unless it is a plain word
  (`PipelineLaws.ImplicitSearchUnchangedIff`, `QueryLaws.QuotedFragmentIff`);
- the time range of a request is ignored if the query names a generator of its own
  (`PipelineCompiler.TimeRangeIgnored`);
- a job that was cancelled can be recorded as finished with results missing, and any of its goroutines can stay blocked
  for ever if there are more batches than fit into a channel (`PipelineCancellation.FinishedIsCompleteIff`,
  `PipelineCancellation.StuckIff`, `PipelineCancellation.GoroutinesEndIff`); the goroutine that reads the database for
  a search does not notice the cancellation at all (`PipelineFeeder.AllGoroutinesEndIff`);
- published offsets are not positions: the second event of an opened file has the offset of the first, and so have all
  that are read one by one; those that carry the same time, too, are dropped by the database as duplicates
  (`FileWatching.OffsetsRightIff`, `FileWatching.SameOffsetIff`, `Ingestion.FileEventLostIff`);
- batch mode loses the alignment of the two tables when the last event of a batch is a duplicate, which is what a retry
  after a lost reply is; later events are then joined with the texts of others, or with none
  (`EventStore.TrueBatchRefines`, `EventStore.NewBatchIsShifted`, `EventStore.NewBatchJoinedIffAligned`,
  `Ingestion.LostReplyInBatchMode`);
- a commit that fails is reported as a success, so that an acknowledged event can be missing
  (`EventStore.EventRepository.AddBatch`, `Ingestion.Run`); an event without a configuration is never acknowledged and
  holds up everything behind it until it is dropped as excess (`Ingestion.Forwarder.Flush`);
- deduplication relies on the time in the text: the clock is no substitute (`Ingestion.DeliveredTwiceStoredOnce`);
- paging loses events, and retention leaves them behind, exactly when a page break falls inside a group of equal
  timestamps (`EventStream.StreamCompleteIff`, `EventStream.RetentionCompleteIff`);
- whether an event with an unwanted field value is kept can depend on the iteration order of a map
  (`SearchStep.RejectionDependsOnOrderIff`);
- the surrounding step sends a blank event for one that it reports as ignored (`SearchStep.SurroundingPage`).

## Model

| member | source | states |
|---|---|---|
| Lexer.FindStringEnd | pkg/logsuck/parser/Lexer.go:73-121 | The match of the closing-quote expression is not empty, lies inside the text and ends with a quote |
| Lexer.Tokenizer.Tokenize | pkg/logsuck/parser/Lexer.go:72-166 | On every text on which it returns, the index-driven loop yields exactly the tokens, or the offset of the unclosed quote, that the recursive definition of the token language gives |
| Lexer.Tokenizer.AddToken | pkg/logsuck/parser/Lexer.go:185-187 | Appends one token |
| Lexer.DivergesIff | pkg/logsuck/parser/Lexer.go:75-163 | A text is one the lexer never finishes if and only if a one-pass automaton without tokens finds a `!` outside quotes that no `=` follows |
| Lexer.LoopHaltsIff | pkg/logsuck/parser/Lexer.go:75-163 | The loop, run without any progress test, halts with the lexer's result within length + 1 iterations if there is no bare `!`, and is still running after any number of iterations if there is one |
| LexerLaws.LexPrint | pkg/logsuck/parser/Lexer.go:72-166 | Tokenizing the printed form of any canonical token list gives the list back |
| LexerLaws.LexedIsCanonical | pkg/logsuck/parser/Lexer.go:72-166 | Everything tokenize returns is canonical |
| LexerLaws.RoundTripIff | pkg/logsuck/parser/Lexer.go:72-166 | A printed token list comes back if and only if it is canonical |
| LexerLaws.PrintIsNormalForm | pkg/logsuck/parser/Lexer.go:72-166 | Printing what was lexed normalises a text without changing its tokens |
| LexerLaws.UnescapeEscape | pkg/logsuck/parser/Lexer.go:123 | Undoing the escapes of a quoted text gives the text |
| LexerLaws.FindPrintedQuote | pkg/logsuck/parser/Lexer.go:73-125 | The closing quote that is found is the one the printer wrote, whatever quotes and backslashes are inside and whatever follows |
| LexerLaws.Tiling | pkg/logsuck/parser/Lexer.go:75-163 | The pieces consumed by the iterations concatenate to the text, and each spells its token |
| LexerLaws.QuoteFreeValues | pkg/logsuck/parser/PipelineParser.go:44-54 | Joining the token values rebuilds the text if no token is quoted |
| LexerLaws.EmptyQuotes | pkg/logsuck/parser/Lexer.go:113-127 | An empty pair of quotes in front of any continuation lexes to a value that is one quote, and takes a third quote right after it along |
| LexerLaws.LastRuneIsCut | pkg/logsuck/parser/Lexer.go:113-127 | A quoted text, whatever is inside it, lexes to one token whose value stops after the first byte of the last rune; it is the whole text if and only if that rune has one byte |
| LexerLaws.CutByBytes | pkg/logsuck/parser/Lexer.go:113-127 | The same in bytes: the value ends with the last byte that is not of the form 10xxxxxx |
| LexerLaws.SymbolsLex | pkg/logsuck/parser/Lexer.go:57-112 | Each symbol and each of the three white-space characters in front of any text is one token, after which the text goes on as before |
| LexerLaws.WordsLex | pkg/logsuck/parser/Lexer.go:52-163 | A word reaches up to the next of the ten delimiters, which are listed, whatever else is in it; IN and NOT in capitals are keywords and no other word is |
| LexerLaws.UnclosedExactly | pkg/logsuck/parser/Lexer.go:113-121 | The offset of an unclosed quote is that of a quote which no later one closes |
| TokenCursor.Parser.Take | pkg/logsuck/parser/Parser.go:111-115 | Returns the first token and leaves the rest |
| TokenCursor.Parser.Require | pkg/logsuck/parser/Parser.go:62-72 | Takes the token if and only if it has the expected type; otherwise the list is untouched and the error tells an end of input from a wrong token |
| TokenCursor.Parser.SkipWhitespace | pkg/logsuck/parser/Parser.go:105-109 | Leaves the tokens from the first that is not white space on |
| TokenCursor.Parser.ParseParenList | pkg/logsuck/parser/Parser.go:74-103 | The loop yields the values, the rest and the errors of the list grammar |
| SearchLaws.ListExactly | pkg/logsuck/parser/Parser.go:74-103 | Tokens are read as a list if and only if, white space left out, they are a bracket, fragments separated by single commas, and a closing bracket |
| SearchLaws.ListErrors | pkg/logsuck/parser/Parser.go:74-103 | Which error a list is that goes on with some other token: behind its opening bracket, behind any number of elements, and behind a comma |
| SearchParser.ParseNotAfterWord | pkg/logsuck/parser/SearchParser.go:87-108 | What follows a word and NOT: a list of excluded values, a fragment to exclude, or the error |
| SearchParser.ParseWordClause | pkg/logsuck/parser/SearchParser.go:57-115 | The clauses that start with a word, against the clause grammar |
| SearchParser.ParseClause | pkg/logsuck/parser/SearchParser.go:52-127 | One iteration of the clause loop, against the clause grammar; what that grammar does is said by the laws below |
| SearchParser.ParseSearch | pkg/logsuck/parser/SearchParser.go:34-155 | The parser with its cursor and in-place updates computes the search that the grammar gives for the text, errors included; what a text amounts to is said by the laws below |
| SearchLaws.SearchTextMeaning | pkg/logsuck/parser/SearchParser.go:34-155 | For any list of clauses in any spacing, parsing the printed text yields the meaning of the clauses in closed form: the last value list set for each lower-cased field, all excluded values in order, the two fragment sets, and the source and host sets |
| SearchLaws.StrayTokensMeanNothing | pkg/logsuck/parser/SearchParser.go:52-128 | Clauses written with any commas, brackets, pipes, operators, white space and lone INs between them, in any number and wherever no clause takes them, parse to what the clauses mean |
| SearchLaws.KeywordErrors | pkg/logsuck/parser/SearchParser.go:77-127 | After any such text, a NOT without a fragment, a NOT behind a word without a list or a fragment, and an IN behind a word without a list make it an error, and which one |
| SearchLaws.WantedMeaning | pkg/logsuck/parser/SearchParser.go:57-128 | Clause by clause: the fragments are those of the clauses, and of several clauses for one field, in whatever case its name is written, the last one counts |
| SearchLaws.RejectedMeaning | pkg/logsuck/parser/SearchParser.go:66-103 | The values excluded for a field are those of all clauses that exclude any, one after the other |
| SearchLaws.DerivedMeaning | pkg/logsuck/parser/SearchParser.go:130-154 | The sources and hosts, wanted and unwanted, are the values of the fields of these names |
| SearchParser.LowerMeaning | pkg/logsuck/parser/SearchParser.go:58 | Each capital letter becomes its small one and nothing else changes |
| SearchLaws.FoldMeaning | pkg/logsuck/parser/SearchParser.go:52-128 | Applying the clauses one after the other amounts to that closed form |
| SearchLaws.QueryParse | pkg/logsuck/parser/SearchParser.go:52-128 | The clause loop on printed clauses, followed by anything a clause could start with, applies exactly these clauses in order and goes on with what follows |
| SearchLaws.QueryCanonical | README.md:160-187 | Every list of documented clauses prints to tokens the lexer can produce, also in front of further tokens |
| SearchLaws.ListParse | pkg/logsuck/parser/Parser.go:74-103 | A printed list of values, empty or not and with any spacing, parses to these values |
| SearchLaws.DanglingOperator | pkg/logsuck/parser/SearchParser.go:59-76 | In the text of any clauses followed by a field and an operator: the operator takes the fragment directly after it, and the text is an error there if and only if there is none, white space included |
| PipelineParser.ParseImplicitSearch | pkg/logsuck/parser/PipelineParser.go:44-54 | Consumes the tokens up to the first pipe and returns their joined values |
| PipelineParser.ParseOptions | pkg/logsuck/parser/PipelineParser.go:79-96 | The option loop, against the option grammar, with the key it drops when no `=` follows |
| PipelineParser.ParseStep | pkg/logsuck/parser/PipelineParser.go:63-103 | One command, against the command grammar |
| PipelineParser.ParsePipeline | pkg/logsuck/parser/PipelineParser.go:32-107 | The parser computes the steps that the grammar gives for the text, errors included |
| PipelineLaws.PipelineTextRoundTrip | pkg/logsuck/parser/PipelineParser.go:32-107 | A search text without quotes and pipes followed by any printed commands, with any options and any quoted or bare arguments, parses to that very text and these commands, or fails with the error the list itself foretells |
| PipelineLaws.OptionsMeaning | pkg/logsuck/parser/PipelineParser.go:79-96 | A key is among the options of a command if and only if one of them has it, and of several the last one counts |
| PipelineLaws.StepErrors | pkg/logsuck/parser/PipelineParser.go:63-96 | In any spacing, and behind any options: the error of a command without its pipe, without a bare word for its name, or with an option that has no value |
| PipelineLaws.ImplicitSearchText | pkg/logsuck/parser/PipelineParser.go:44-61 | For every text without quotes that lexes, whatever follows the pipe, the implicit search gets exactly the text before the first pipe character |
| PipelineLaws.ImplicitSearchUnchangedIff | pkg/logsuck/parser/PipelineParser.go:44-52 | For every text that lexes, the joined values are the text before the first pipe token if and only if no quoted token is among them |
| PipelineLaws.AlwaysStartsWithSearch | pkg/logsuck/parser/PipelineParser.go:44-61 | Whatever is typed, a parsed pipeline starts with a search step without options, whose value are the joined values before the first pipe, and without quotes the text before it |
| QueryLaws.PlainSearchMeaning | pkg/logsuck/parser/PipelineParser.go:44-61 | Printed clauses without quotes in front of any commands: the first step gets their text, and the search it is parsed to is the meaning of the clauses |
| QueryLaws.QuotedFragmentIff | README.md:160-187 | A quoted text as a query, which is documented as one fragment, is parsed again without its quotes: to the meaning of the clauses it spells, to an error for a quoted NOT, and to the documented fragment if and only if it is a plain word |
| PipelineLaws.PlainText | pkg/logsuck/parser/Lexer.go:72-166 | A text without quotes and pipes that the lexer finishes has tokens, none of them quoted or a pipe |
| PipelineLaws.AcceptedIff | pkg/logsuck/parser/PipelineParser.go:63-103 | A list of commands, with any options and arguments and in any number, is accepted if and only if each has its options first, then no argument, one that is no keyword, or a bare word and one more, and no white space follows a final value |
| PipelineLaws.ValueComesBackIff | pkg/logsuck/parser/PipelineParser.go:79-101 | For any command in an accepted text: its last argument comes back as the value if and only if it is quoted or a bare word stands before it; a single bare word leaves the value empty; and the first of two can be any bare word without changing the parse |
| PipelineCompiler.FindLastGenerator | internal/pipeline/Pipeline.go:89-95 | The loop finds the last step without input, or position 0 |
| PipelineCompiler.CheckTypes | internal/pipeline/Pipeline.go:97-114 | Accepts exactly the well-typed chains and otherwise reports the first step that does not fit |
| PipelineCompiler.WellTypedMeaning | internal/pipeline/Pipeline.go:97-114 | With the kinds of data between the steps written out: a chain is well typed if and only if no step propagates on one side only, yields what the next does not take, or ends in neither events nor rows; the error names the first step that does, and which of the three it is |
| PipelineCompiler.Wire | internal/pipeline/Pipeline.go:116-134 | Every pipe's output is the next one's input, as a channel and as a resolved type |
| PipelineCompiler.WiredMeaning | internal/pipeline/Pipeline.go:116-134 | No two pipes share an output, each output is the next input and carries the kind of data there, and the last one is the pipeline's |
| PipelineCompiler.CompileSearchStep | plugins/steps/SearchPipelineStep.go:108-134 | The times are read first, then the value is parsed as a search, with the error of whichever fails |
| PipelineCompiler.CompileParsed | internal/pipeline/Pipeline.go:67-87 | Each parsed step compiled on its own and in its place, or the error of the first step that does not compile, unless a search step on the way never returns |
| PipelineCompiler.CompileOneMeaning | internal/pipeline/Pipeline.go:67-87 | Every outcome of compiling one step: the times of the request for the implicit search and otherwise its own options, looked at before the value is tokenized; value and options alone for any other step |
| PipelineCompiler.CompilationIff | internal/pipeline/Pipeline.go:67-87 | There is exactly one such result, and it is that of the recursion the other statements use |
| PipelineCompiler.Connect | internal/pipeline/Pipeline.go:89-141 | Succeeds exactly if the truncated chain is well typed, and then yields it fully wired |
| PipelineCompiler.Compile | internal/pipeline/Pipeline.go:61-141 | From the text, whenever it returns: the parse error, the compile error, the first type error, or a wired and well-typed pipeline |
| PipelineCompiler.CompileReturnsIff | internal/pipeline/Pipeline.go:61-87 | It returns if and only if the query has no bare `!` outside quotes and, if it parses, neither has the value of any search step that is reached and whose times can be read |
| PipelineCompiler.ImplicitSearchReturnsIff | plugins/steps/SearchPipelineStep.go:108-134 | For a query without a search command of its own the joined values before the first pipe decide |
| PipelineCompiler.QuoteFreeReturns | plugins/steps/SearchPipelineStep.go:108-134 | A query without quotes that can be tokenized can be compiled |
| PipelineCompiler.QuotedTextReturnsIff | plugins/steps/SearchPipelineStep.go:108-134 | A query that is one quoted text always passes the first tokenizing, and is compiled if and only if the text itself has no bare `!`; `"wow!"` never is |
| PipelineCompiler.CompiledPipeline.OutputType | internal/pipeline/Pipeline.go:171-179 | The declared output type is the resolved type of the last step and the type of the last pipe |
| PipelineCompiler.CompiledPipeline.SortMode | internal/pipeline/Pipeline.go:181-189 | The last step that prescribes an order decides |
| PipelineCompiler.SortModeMeaning | internal/pipeline/Pipeline.go:181-189 | That is the order of the last step that prescribes one, and newest first if none does |
| PipelineCompiler.PipesFitSteps | internal/pipeline/Pipeline.go:97-134 | In a well-typed chain adjacent pipes agree, every step gets the type it asks for, no pipe has the propagate type, and the last one carries events or rows |
| PipelineCompiler.TruncationKeepsMeaning | internal/pipeline/Pipeline.go:89-95 | Dropping the steps before the last generator does not change the result of running the steps |
| PipelineCompiler.RunAllMeaning | internal/pipeline/Pipeline.go:156-161 | Running the steps in turn: a generator forgets what was before it, any other step maps every batch |
| PipelineCompiler.ExecutionRefinesQuery | internal/pipeline/Pipeline.go:89-161 | Under any schedule the truncated, concurrently executed pipeline has delivered a prefix, and once finished without cancellation all, of what running every step of the query in turn yields |
| PipelineCompiler.TimeRangeIgnored | internal/pipeline/Pipeline.go:73-95 | What is executed does not depend on the time range if a generator follows the implicit search, and starts with the very step that got the time range if none does |
| PipelineCompiler.TimeRangeLost | internal/pipeline/Pipeline.go:73-95 | A surrounding command after an empty search is a query that loses it |
| PipelineCompiler.BuiltInWellTyped | plugins/steps/TablePipelineStep.go:62-68 | A query over the built-in steps is well typed if and only if only where steps follow a table step |
| PipelineCompiler.BuiltInRuns | plugins/steps/WherePipelineStep.go:29-72 | What one more built-in step makes of the result of any query |
| PipelineCompiler.BuiltInModes | plugins/steps/SurroundingPipelineStep.go:95-97 | A query keeps the order of its results if and only if it has a surrounding step, and its generator looks at a cancellation if and only if it is a search |
| PipelineNetwork.RunKeepsInv | internal/pipeline/Pipeline.go:116-161 | In every reachable state each stage has sent, in order, its function of what it has taken, apart from the batch it holds, and no channel exceeds its capacity |
| PipelineNetwork.ReceivedIsPrefix | internal/jobs/Engine.go:97-161 | In every interleaving, cancelled or not, the batches received are a prefix of the sequential result |
| PipelineNetwork.FinishedIsComplete | internal/jobs/Engine.go:97-161 | When the consumer sees the output closed and nothing was cancelled, it has received the whole sequential result and every goroutine has returned |
| PipelineNetwork.NoDeadlock | internal/pipeline/Pipeline.go:116-161 | As long as the consumer reads, some goroutine can move without help from a cancellation |
| PipelineNetwork.RunsAreBounded | internal/pipeline/Pipeline.go:116-161 | Every run under every schedule ends, within a bound in the number of batches and steps |
| PipelineNetwork.MaximalRunDelivers | internal/pipeline/Pipeline.go:116-161 | A run without cancellation that cannot go on has delivered exactly the sequential result |
| PipelineCancellation.FinishedIsCompleteIff | internal/jobs/Engine.go:101-169 | A job recorded as finished has always received everything, cancelled or not, if and only if there is nothing to deliver or a generator that ignores the cancellation runs alone |
| PipelineCancellation.FinishedAfterCancel | internal/jobs/Engine.go:101-169 | In every other pipeline a cancelled job can be recorded as finished with nothing received |
| PipelineCancellation.StuckForGood | plugins/steps/WherePipelineStep.go:29-72 | A stage that blocks on a full channel whose reader has gone, another stage or the engine, holds its batch in every continuation of the run |
| PipelineCancellation.StuckIff | internal/pipeline/Pipeline.go:116-161 | Any given stage can get stuck in this way if and only if the generator has more batches than a channel has room for |
| PipelineCancellation.GoroutinesEndIff | internal/pipeline/Pipeline.go:116-161 | Under every schedule and cancelled at any time, all step goroutines have ended when nothing can move any more, if and only if the generator has no more batches than that |
| PipelineFeeder.Projects | plugins/sqlite_events/SqliteEventRepository.go:268-384 | A run of a job with the goroutine that reads the database for its search is, without the steps of that goroutine, a run of its step goroutines |
| PipelineFeeder.Lift | plugins/sqlite_events/SqliteEventRepository.go:268-384 | Every run of the step goroutines is one of these |
| PipelineFeeder.UncancelledJobEnds | plugins/sqlite_events/SqliteEventRepository.go:268-384 | Without a cancellation all goroutines of a job end, the reading one included, and everything is delivered |
| PipelineFeeder.OfferedForGood | plugins/sqlite_events/SqliteEventRepository.go:374 | Once the search step has gone, the page on offer stays on offer in every continuation |
| PipelineFeeder.CancelledSearch | plugins/steps/SearchPipelineStep.go:53-60 | A run that comes to such an end, for every search with at least one page |
| PipelineFeeder.AllGoroutinesEndIff | plugins/sqlite_events/SqliteEventRepository.go:268-384 | Under every schedule and cancelled at any time, all goroutines of a job end, the reading one included, if and only if there are no more batches than a channel has room for and, for a search, none at all |
| Steps.MatchesAll | plugins/steps/WherePipelineStep.go:42-48 | All conditions are met, with a missing field read as the empty string |
| Steps.WhereBatch | plugins/steps/WherePipelineStep.go:29-72 | The loops keep, in order, exactly the events whose lower-cased fields have the wanted values and exactly the rows with the wanted values under the names as written, a missing one read as empty |
| Steps.WhereKeepsMatches | plugins/steps/WherePipelineStep.go:29-72 | The same of the specification: which positions are kept |
| Steps.TableBatch | plugins/steps/TablePipelineStep.go:29-52 | One row for each event, with exactly the named columns, missing ones empty; the events stay |
| Steps.RexOne | plugins/steps/RexPipelineStep.go:45-69 | In place: the event gains the extracted fields of the chosen text, or is untouched if it lacks the field |
| Steps.RexMeaning | plugins/steps/RexPipelineStep.go:45-69 | Which text is extracted from for each name, and that nothing but the fields changes |
| Steps.RexBatch | plugins/steps/RexPipelineStep.go:33-74 | In place, for a batch of separate events: each is updated once and no other |
| Steps.WhereCommutes | plugins/steps/WherePipelineStep.go:29-72 | Two where steps can be swapped |
| Steps.WhereBeforeTable | plugins/steps/TablePipelineStep.go:29-52 | A where step on lower-case columns gives the same result before a table step as after it |
| SearchStep.ShouldIncludeEvent | plugins/steps/Fragments.go:91-135 | The two loops, for every order in which the maps are visited, on the fields of the lower-cased text with the event's own host and source |
| SearchStep.RejectedIff | plugins/steps/Fragments.go:118-133 | An event is turned down if and only if, in the order of the loop, some unwanted field matches a pattern and no field up to it is missing |
| SearchStep.RejectionDependsOnOrderIff | plugins/steps/Fragments.go:118-133 | The decision depends on the iteration order if and only if the event misses one unwanted field while another one matches |
| SearchStep.IncludedMeaning | plugins/steps/Fragments.go:91-135 | Otherwise an event is kept if and only if every wanted field matches and no unwanted one does |
| SearchStep.SearchPage | plugins/steps/SearchPipelineStep.go:57-91 | One page: exactly the events with a file configuration that are to be included, in order, each with all its columns and its fields |
| SearchStep.SearchPages | plugins/steps/SearchPipelineStep.go:37-94 | One batch for each page, and together what the search finds in all pages as one |
| SearchStep.SurroundingPage | plugins/steps/SurroundingPipelineStep.go:36-81 | Fills an array by position: every event keeps its place, one without a file configuration is blank |
| FileWatching.Split | pkg/logsuck/parser/RegexFileParser.go:65-83 | Events and remainder are the pieces between delimiters, each event with its offset |
| FileWatching.PiecesAreTheSplit | pkg/logsuck/parser/RegexFileParser.go:65-83 | A list of texts are the pieces if and only if they rebuild the text, none contains an earlier delimiter, and the last contains none |
| FileWatching.SplitContinues | plugins/filereader/FileWatcher.go:407-441 | Splitting what has been read and then the remainder with a new chunk gives the complete pieces and the remainder of the whole |
| FileWatching.SplitOffsets | pkg/logsuck/parser/RegexFileParser.go:70-78 | Each event's text stands at its offset in the string, followed by the delimiter |
| FileWatching.FileWatcher.HandleEvents | plugins/filereader/FileWatcher.go:422-441 | Publishes the pieces with the offsets as the code advances them, and leaves the offset for the next call and the remainder |
| FileWatching.FileWatcher.HandleRead | plugins/filereader/FileWatcher.go:414-418 | One read keeps the published events equal to the complete pieces of everything read since the file was opened, with the starts added up |
| FileWatching.FileWatcher.ReadToEnd | plugins/filereader/FileWatcher.go:407-420 | The same for the read loop with any chunks |
| FileWatching.FileWatcher.Open | plugins/filereader/FileWatcher.go:386-401 | A new source id, offset 0, and an empty buffer |
| FileWatching.FileWatcher.OneTurn | plugins/filereader/FileWatcher.go:374-403 | One turn with reopening: the old file is read to its end, its unfinished piece dropped, the new file starts empty; what the turns make of the contents is ContentsByTurns |
| FileWatching.ContentsByTurns | plugins/filereader/FileWatcher.go:374-403 | On the turns themselves: in which of them the file is opened, and that the content of an opening is what was read in the turns up to the next reopen and what that one still found in the old file, or what was read from then on |
| FileWatching.FileWatcher.Start | plugins/filereader/FileWatcher.go:366-405 | However files are cut into reads and reopened: the contents are those of ContentsByTurns, and what is published are, opening by opening and under its own source id, exactly the complete pieces of its content, with offsets that add up the starts of the events since the file was opened |
| FileWatching.OffsetsRightIff | plugins/filereader/FileWatcher.go:428-438 | For each opened file and any cutting into reads and calls: the first two events have offset 0, and the published offsets are positions if and only if at most one event was published since the file was opened |
| FileWatching.OffsetsAdvance | plugins/filereader/FileWatcher.go:428-438 | Each event moves the offset on by where it starts in the string of its call, and the first one has the offset of the call |
| FileWatching.SameOffsetIff | plugins/filereader/FileWatcher.go:428-438 | Two events of one opened file share their offset if and only if the earlier one and all between them were the first of their calls |
| EventStore.AddAllAgrees | plugins/sqlite_events/SqliteEventRepository.go:162-205 | On tables that agree a one-by-one batch succeeds, keeps the agreement, and adds exactly the new events, in order and each once; which are new is said by AddAllExactly |
| EventStore.AddOneExactly | plugins/sqlite_events/SqliteEventRepository.go:170-195 | With all columns written out: an event with the host, source, timestamp and offset of a row changes nothing, a rowid that is taken is an error, and otherwise each table gets its row under the next id |
| EventStore.AddAllExactly | plugins/sqlite_events/SqliteEventRepository.go:162-205 | On tables that agree exactly the events of a batch that repeat the four columns of no row and of no earlier event get rows, in order, under the next ids, with all their columns and their own text |
| EventStore.AddedIff | plugins/sqlite_events/SqliteEventRepository.go:162-205 | One more event changes the join if and only if nothing stored and nothing before it in the batch has its host, source, timestamp and offset |
| EventStore.NoTwoRowsAlike | plugins/sqlite_events/SqliteEventRepository.go:56 | After any batches and deletes no two rows have the same host, source, timestamp and offset |
| EventStore.DeleteExactly | plugins/sqlite_events/SqliteEventRepository.go:215-266 | A delete leaves in both tables, in order, exactly the rows with other ids, and uses no id again |
| EventStore.InsertedExactly | plugins/sqlite_events/SqliteEventRepository.go:84-133 | The bulk insert adds the same events, each under the id of its place in the batch |
| EventStore.CleanedExactly | plugins/sqlite_events/SqliteEventRepository.go:140-151 | The clean-up keeps, in order, all raw rows but those of the batch whose number no event has |
| EventStore.DeleteAgrees | plugins/sqlite_events/SqliteEventRepository.go:215-266 | A delete keeps the agreement and removes exactly the events with the given ids |
| EventStore.HistoryAgrees | plugins/sqlite_events/SqliteEventRepository.go:162-266 | Over any sequence of batches and deletes no insert fails, the two tables have the same ids with the same source and host, and no two rows share a key |
| EventStore.HistoryIsLedger | plugins/sqlite_events/SqliteEventRepository.go:162-266 | After any such sequence the tables hold exactly a ledger of ids and events: under each id the columns of its event in one table and that event's own text in the other |
| EventStore.NothingInvented | plugins/sqlite_events/SqliteEventRepository.go:162-266 | Every event in the ledger came with one of the batches |
| EventStore.TrueBatchRefines | plugins/sqlite_events/SqliteEventRepository.go:93-160 | On aligned tables a batch insert leaves the same joined events as one-by-one inserts, duplicates inside the batch included, and the alignment survives if and only if the last event was new |
| EventStore.DeleteAligned | plugins/sqlite_events/SqliteEventRepository.go:215-266 | A delete keeps the alignment if and only if it spares the newest row or there is none |
| EventStore.NewBatchIsShifted | plugins/sqlite_events/SqliteEventRepository.go:93-160 | A batch of new events on any agreeing tables: event i is joined with the text of event i + gap, and the last ones with none, where the gap is the distance of the two id counters |
| EventStore.NewBatchJoinedIffAligned | plugins/sqlite_events/SqliteEventRepository.go:93-160 | A batch of new events is stored with its own texts if and only if the tables were aligned; otherwise its last event has no text |
| EventStore.RetryWidensGap | plugins/sqlite_events/SqliteEventRepository.go:93-160 | A batch of nothing but duplicates leaves the tables as they are and widens the gap by its length |
| EventStore.BatchHistoryIsLedger | plugins/sqlite_events/SqliteEventRepository.go:93-160 | In batch mode the tables hold the ledger of any history of batches and deletes, each event with its own text, if every batch with something new comes while the newest id is still in the ledger |
| EventStore.BatchHistoryIff | plugins/sqlite_events/SqliteEventRepository.go:93-160 | For histories whose batches bring only new events or none, this condition is exact |
| EventStore.EventRepository.AddBatch | plugins/sqlite_events/SqliteEventRepository.go:76-82 | The configured mode decides, with the rows that AddAllExactly and InsertedExactly write out; a failing commit is reported as a success, and an empty batch is an error in batch mode only |
| EventStore.EventRepository.AddBatchOneByOne | plugins/sqlite_events/SqliteEventRepository.go:162-205 | The new tables are those of inserting the events one after the other, which on tables that agree adds the rows of AddAllExactly; on an error, and after a failing commit, they are the old ones |
| EventStore.EventRepository.AddBatchTrueBatch | plugins/sqlite_events/SqliteEventRepository.go:93-160 | The new tables are those of the two bulk inserts and the clean-up, or the old ones after a failing commit; an empty batch is an error |
| EventStore.EventRepository.InsertEvents | plugins/sqlite_events/SqliteEventRepository.go:84-133 | Rows that repeat the four columns of a row or of an earlier event of the batch are ignored, the others have all their columns, and every attempted row takes an id |
| EventStore.EventRepository.CleanUp | plugins/sqlite_events/SqliteEventRepository.go:140-151 | Keeps, in order, all raw rows but those in the range of the batch whose number no event has |
| EventStore.EventRepository.DeleteBatch | plugins/sqlite_events/SqliteEventRepository.go:215-266 | Both tables keep, in order, exactly the rows with other ids, or, if either statement fails, neither changes; after a failing commit it is an error and may be either |
| Ingestion.Recipient.Process | plugins/recipient/RecipientEndpoint.go:121-156 | Each event with its own text, host, source, source id and offset, and with the time in its text, or the clock's if there is none |
| Ingestion.Recipient.ReceiveEvents | plugins/recipient/RecipientEndpoint.go:98-162 | Stores the whole request or, if a source has no configuration, nothing; a request whose commit fails is reported as stored; the tables hold each event ever committed once, in order of first arrival |
| Ingestion.Forwarder.Post | internal/forwarder/ForwardingEventPublisher.go:114-131 | For every fate of the request, the reply and the commit: what the forwarder sees, and whether the events, as processed, are added to what has arrived; a success means that all events sent have a configuration, and have arrived if no commit has failed |
| Ingestion.Forwarder.Forward | internal/forwarder/ForwardingEventPublisher.go:102-138 | Sends chunk after chunk of 1000 events, or of what is left; empties the buffer and acknowledges everything, or stops at the first failure; it drops nothing; with an unconfigured source in its first chunk it fails and acknowledges nothing at all |
| Ingestion.Forwarder.DropExcessEvents | internal/forwarder/ForwardingEventPublisher.go:140-153 | Drops the oldest events, and only as many as exceed the limit |
| Ingestion.Forwarder.Flush | internal/forwarder/ForwardingEventPublisher.go:69-77 | Leaves at most the configured number of events; it acknowledges all and drops none if every POST succeeds, and fails otherwise; behind an event without a configuration nothing is acknowledged, only dropped |
| Ingestion.Forwarder.HandleTimeout | internal/forwarder/ForwardingEventPublisher.go:68-78 | The timer's branch: fates are only added, the buffer is within its limit afterwards, and empty if every POST succeeds |
| Ingestion.Forwarder.HandleEvent | internal/forwarder/ForwardingEventPublisher.go:79-91 | The adder's branch: the event is buffered, and a flush follows only for 1000 events and more than 1000 milliseconds after a failure; it acknowledges everything if every POST succeeds |
| Ingestion.Run | internal/forwarder/ForwardingEventPublisher.go:59-93 | In every run with any requests and replies lost: each published event has one fate or is still buffered, in order; one without a configuration is never acknowledged; while every POST succeeds all fates are acknowledgements; the dropped events are exactly the oldest ones that failed flushes left above the limit; after every flush the buffer is within it; and the database holds the arrived events, the acknowledged ones among them unless a commit has failed, each once and in publish order, if their texts carry their time |
| Ingestion.DeliverView | plugins/recipient/RecipientEndpoint.go:121-157 | A repeated or overlapping delivery changes the database by its new events only |
| Ingestion.ArrivalIgnoredIff | plugins/sqlite_events/SqliteEventRepository.go:162-205 | An event that arrives adds nothing if and only if one with its host, source, timestamp and offset is stored or has arrived before |
| Ingestion.DeliveredTwiceStoredOnce | plugins/recipient/RecipientEndpoint.go:136-155 | Whatever is stored and arrives in between, an event delivered again is ignored if and only if it gets its former timestamp or that of another event with its host, source and offset; only a time in the text guarantees it |
| Ingestion.FileEventLostIff | plugins/filereader/FileWatcher.go:428-438 | An event of an opened file is dropped as a duplicate if and only if its key was stored before, or an earlier event of the same time and all between them were the first of their calls |
| Ingestion.SecondEventIsLost | plugins/filereader/FileWatcher.go:428-438 | The second event of an opened file is lost if its text has the time of the first, however the file is cut into reads |
| Ingestion.LostReplyInBatchMode | plugins/sqlite_events/SqliteEventRepository.go:93-160 | In batch mode the retry after a lost reply moves the ids apart by its length; the next batch of new events, of any size, is then stored with its texts shifted by the gap |
| EventStream.FilterStream.NextPage | plugins/sqlite_events/SqliteEventRepository.go:293-383 | One turn of the paging loop: the newest 1000 matching rows below the last timestamp, none twice, the new last timestamp, and the end exactly at a short page, which holds all that is left |
| EventStream.StreamIsSound | plugins/sqlite_events/SqliteEventRepository.go:268-384 | Whatever anybody inserts and deletes between pages, sent or not, only rows that matched at the start are sent, none twice, strictly older from page to page, in a bounded number of pages |
| EventStream.SurvivorsAreSent | plugins/sqlite_events/SqliteEventRepository.go:268-384 | Under the same conditions a matching row that nobody has deleted is missing from an ended stream only if it has the timestamp of the last row of some page |
| EventStream.StreamCompleteIff | plugins/sqlite_events/SqliteEventRepository.go:268-384 | With inserts and deletes of sent rows in between, an ended stream has sent every matching row if and only if no page break of the one-shot result falls inside a group of equal timestamps |
| EventStream.CompleteExactly | plugins/sqlite_events/SqliteEventRepository.go:268-384 | The same on the table at the start: every matching row is on a page if and only if for every multiple of 1000 below their number there is a time from which on exactly so many match |
| EventStream.RetentionIsSafe | plugins/tasks/DeleteOldEventsTask.go:68-83 | Nothing newer than the cut-off is ever deleted, and nothing that was not on a page sent |
| EventStream.RetentionCompleteIff | plugins/tasks/DeleteOldEventsTask.go:68-83 | With successful deletes everything too old at the start is gone if and only if no page break fell inside a group of equal timestamps |
| EventStream.RunRetention | plugins/tasks/DeleteOldEventsTask.go:68-83 | The task's loop beside the stream and other writers, under any schedule: nothing newer than the cut-off goes; once it has finished, everything up to the cut-off is gone exactly if no page break fell inside a group of equal timestamps; and with successful deletes it finishes under every schedule that is long enough |
| JobStats.CountFields | internal/jobs/Engine.go:205-214 | One record raises the count of exactly its own field values by one |
| JobStats.GatherFieldStats | internal/jobs/Engine.go:201-229 | One entry for each value of each field that occurs in the events, and the number in it is that of the events that have the value |
| JobStats.TallyMeaning | internal/jobs/Engine.go:201-259 | A complete list of statistics has an entry for every value some record has, and each counts the records that have it |
| JobStats.GatherFieldStatsFromTable | internal/jobs/Engine.go:231-259 | The same for table rows |
| JobStats.UpsertCountsRecords | plugins/sqlite_jobs/SqliteJobRepository.go:99-119 | Upserting the statistics of some records adds their occurrences, in whatever order they are listed |
| JobStats.JobRepository.AddResults | plugins/sqlite_jobs/SqliteJobRepository.go:55-73 | Appends the matches, or changes nothing |
| JobStats.JobRepository.AddTableResults | plugins/sqlite_jobs/SqliteJobRepository.go:75-97 | Appends the rows, or changes nothing |
| JobStats.JobRepository.AddFieldStats | plugins/sqlite_jobs/SqliteJobRepository.go:99-119 | All rows of the statement take effect, or none; an empty list is an error |
| JobStats.JobRepository.GetTableResults | plugins/sqlite_jobs/SqliteJobRepository.go:161-186 | The rows on the page, one by one: those of the job, and no others, sorted by number, from the offset on and at most as many as asked for; negative limits and offsets included |
| JobStats.PagesAreSlices | plugins/sqlite_jobs/SqliteJobRepository.go:161-186 | If no write of rows failed, any such page is the matching slice of the rows in the order of their arrival |
| JobStats.PageOfRows | plugins/sqlite_jobs/SqliteJobRepository.go:161-186 | If no write of rows failed, a page holds as many rows as are asked for and left behind the skipped ones, and row i on it has the number skip + i and the values of the row received as that |
| JobStats.PagesTogether | plugins/sqlite_jobs/SqliteJobRepository.go:161-186 | Pages of one size, read until nothing is left, together are the table as it was received: every row once, in order, numbered from 0 |
| JobStats.JobEngine.HandleResult | internal/jobs/Engine.go:99-161 | One turn of the consumer loop for each output type, with each way the two writes can fail |
| JobStats.HandledExactly | internal/jobs/Engine.go:99-161 | What one result adds to each table, written out: matches with id and timestamp, rows with the next numbers, one count for every record that has a value, and nothing for other jobs |
| JobStats.JobEngine.Run | internal/jobs/Engine.go:99-161 | Any interleaving of the loops of all jobs |
| JobStats.StatsAreARecount | internal/jobs/Engine.go:99-161 | At any time the stored occurrences of a field value are a recount of the job's records whose writes succeeded, for any division into results and whatever other jobs do |
| JobStats.StatsCompleteIff | internal/jobs/Engine.go:115-127 | They count everything received if and only if every result with a failed write had no fields |
| JobStats.FieldOccurencesCountDistinct | plugins/sqlite_jobs/SqliteJobRepository.go:188-205 | The count shown for a field is the number of its distinct values, and a field is shown if and only if a record has it |
| JobStats.FieldValuesAreARecount | plugins/sqlite_jobs/SqliteJobRepository.go:207-224 | The values shown for a field are its distinct values, each with its number of records |
| JobStats.RowsKeepTheirNumbers | internal/jobs/Engine.go:130-150 | Each stored row has the number of its arrival, and the rows are 0, 1, ... without a gap and complete if and only if no write of rows failed |
| JobStats.MatchesAreResults | internal/jobs/Engine.go:105-127 | If no write of results failed, the matches stored for a job are the ids and timestamps of its events in the order of arrival |
| JobStats.JobStoresQueryResult | internal/jobs/Engine.go:66-177 | A job that ends without cancellation or failed writes has stored a recount of what the query's steps yield in turn, and every page read back is the matching slice of those rows, under any schedule and beside any other jobs |
| SearchJobs.SearchJobIsExact | internal/jobs/Engine.go:66-177 | From the database to the stored result: a finished search job has stored exactly the events it keeps of those that matched at its start, each once and newest first, with a recount of their fields, if no page break falls inside a group of equal timestamps |
| TaskManager.RunKeepsInv | internal/tasks/TaskManager.go:135-240 | In every interleaving every live worker is the one its task's entry names, with its settings, and has not confirmed yet |
| TaskManager.OneWorkerPerTask | internal/tasks/TaskManager.go:135-240 | At any moment each task has at most one live worker, so that two runs of a task never overlap |
| TaskManager.ReturnedMeansApplied | internal/tasks/TaskManager.go:200-240 | When UpdateConfig has returned, the live workers are exactly those of the known enabled tasks, with their new settings and not cancelled |
| TaskManager.LastConfigCounts | internal/tasks/TaskManager.go:200-202 | The configuration in force is the one of the last call of UpdateConfig |
| TaskManager.WorkerTurns | internal/tasks/TaskManager.go:157-195 | In every reachable state the next tick of a waiting worker starts a run exactly if its task is enabled, a run is never cut short and ends with the worker waiting, a cancelled worker confirms only while it waits, and the entry shows whether the task is running |
| TaskManager.WaitEnds | internal/tasks/TaskManager.go:215-218 | The worker UpdateConfig waits for has confirmed or can go on by itself until it does |
| TaskManager.ConfirmsOnce | internal/tasks/TaskManager.go:173-178 | In every continuation of a run a worker that has returned stays gone, and a confirmation that was received is never repeated |
| TaskManager.UpdateConfigEnds | internal/tasks/TaskManager.go:200-240 | In every continuation of a run UpdateConfig takes a bounded number of steps until it is called again, whatever the workers do in between |
| TaskManager.TickersStart | internal/tasks/TaskManager.go:143-170 | Given valid configurations, every worker ever started has a positive interval |

## Left out

- Web endpoints, the user interface, command-line flags, plugins, schemas and configuration merging: plumbing.
- SQL text, full-text matching, HTTP, JSON and file globs: a query or write is its effect on the tables, a POST its
  possible outcomes. The Postgres repositories repeat the SQLite logic.
- Lower-casing is modelled for ASCII letters only.
- LexerLaws.LexedIsCanonical: stated for texts in which every continuation byte follows a byte of its rune, as in all
  UTF-8; tokenize on other bytes is modelled byte by byte, where Go's decoder would substitute runes.
- FileWatching.Start: the delimiter is a fixed, non-empty text; for a regular expression in general the pieces depend
  on how the file is cut into reads. A read that returns bytes together with an error is not modelled.
- The JSON file parser splits in the same way as the regular-expression parser and has no model of its own.
- Field extraction, time parsing and the compilation of patterns are parameters, and so is a pattern that fails to
  compile. Fragments are matched by the database, not by the search step.
- PipelineNetwork.RunKeepsInv: a batch is a value there, so the network says nothing about steps that share an event
  object; Steps.RexBatch models the update in place. Goroutines, channels and tasks are modelled as transition
  systems and not as objects.
- PipelineFeeder.AllGoroutinesEndIff: a search step that fails to read its configuration returns like one that sees the
  cancellation; that way of leaving the reading goroutine behind is not modelled.
- PipelineCompiler.TruncationKeepsMeaning: for a fixed repository; generators that run at different times may see
  different tables.
- PipelineCompiler.CompiledPipeline has no ColumnOrder: it is empty by construction when a where step comes last.
- EventStore.TrueBatchRefines: assumes that every attempted row of the bulk insert takes an id, whether it is inserted
  or ignored, and that the clean-up itself does not fail. SQLite's limit on variables is not modelled.
- EventStream.StreamIsSound: a failing query or row scan ends or thins out a stream and is not modelled; timestamps are
  totally ordered, whereas the database compares their texts; on an empty table the source sends no page instead of an
  empty one.
- Ingestion.Run: one forwarder and a recipient that inserts one by one; batch mode is Ingestion.LostReplyInBatchMode.
  The warning at 70 per cent is not modelled.
- JobStats.JobEngine.Run: the two writes of one result are one step; writes of different jobs touch different keys.
  The pages of event results, ordered by timestamp, and the Jobs table with its states are not modelled, and neither is
  an Abort that races with the end of a job.
- PipelineLaws.PipelineTextRoundTrip: an option without a value, or with a keyword for its value, is not among the
  command lists; PipelineLaws.StepErrors has that error.
- SearchStep.SurroundingPage: a blank event has an empty field map in the model and a nil one in Go, on which a
  following rex step panics if it extracts a field.
- EventStream.StreamCompleteIff: when others delete events that have not been sent, the page breaks move; what still
  holds is EventStream.SurvivorsAreSent.
- GetSurroundingEvents depends on the offsets, which are not positions; the surrounding step takes its result as given.
- TaskManager.ReturnedMeansApplied: a task is named by its key in the configuration, and the program as a whole is not
  stopping. What a task does when it runs is its own business, except for the retention task.
- parseDuration and the log messages would add only easy members.
