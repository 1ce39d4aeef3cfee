# FVM workbench: execution traces, their analysis and their driver

This project models the execution-trace engine of the FVM workbench (`api/src`) in Dafny and proves
what it computes, for all traces and all runs.

An execution trace is a flat list of events: gas charges, calls, returns, errors, actor invocations and
log messages. Two independent stack machines read it.

* The **analysis** (`TraceAnalysis::build`) makes one pass with three mutable structures: a growing vector
  of spans, a stack of open calls, and a map from label to a stack of open named spans that log messages
  start and end.
* The **conversion** (`InvocationTrace::from`) turns the calls and returns into a tree, with explicit
  failures.

The **wrangler** (`ExecutionWrangler`) executes messages on a bench, numbers them per sender, and buffers
the traces it gets back.

## How the model is laid out

| file | content |
|---|---|
| `Trace.dfy`, `Text.dfy`, `Markers.dfy` | events; decimal printing; marker search and trimming in log messages |
| `Gas.dfy`, `Maps.dfy` | gas in two dimensions, ledgers by charge name, sums over maps |
| `Script.dfy`, `Measures.dfy` | what a span measures, defined on the trace alone, and how one more event changes it |
| `Machine.dfy`, `Runs.dfy`, `Windows.dfy` | the analysis as transitions on values; whole runs; spans at trace positions |
| `Events.dfy` | what a trace says, read directly off its events: sums of gas, calls and their returns, span messages |
| `EventSpans.dfy`, `EventTree.dfy` | the analysis and the conversion stated on the events |
| `Analysis.dfy` | the program itself: `Span` objects changed in place, the pass and its helper steps |
| `Invocation.dfy` | printing trees, the conversion, and the program's loop |
| `CallTree.dfy`, `Agreement.dfy` | both machines on the same trace |
| `Format.dfy`, `SpanIds.dfy` | rounding, the order of printed amounts, span ids |
| `Wrangler.dfy` | the driver as a class, and runs of its operations against an arbitrary bench |
| `Sequences.dfy`, `Wrappers.dfy` | small lemmas on sequences; Option and Result |

Every event plays a *role*: it charges gas, opens a key, closes a key, or does nothing. The keys are the
calls and each label. A span's *window* is the longest stretch after its opening in which its key is never
closed more often than opened (`Script.Window`); the gas of a span is a tally of charges in its window
(`Script.Measure`). Root is treated as a call around the whole trace (`Script.FullScript`). This
definition mentions neither stacks nor maps nor running totals; the program is proved to compute it.

The main results are then restated without roles, on the events as the program receives them
(`Events.dfy`): sums of the two amounts of gas events, calls minus returns, and log messages of the form
prefix, marker, label. `EventSpans.Reported` says what the spans of a trace must be, and
`EventTree.Mirrored` what its tree must be; neither refers to how events are read by the machines.

Panics are results: `Machine.Panic` for the analysis, `Invocation.ConversionPanic` for the conversion and
`Wrangler.Fault.SequenceOverflow` for the driver. Additions are checked: an addition that leaves u64 is
the panic `Overflow`, as in a build with overflow checks. Loops over hash maps pick their next key
arbitrarily, so what is proved holds for every iteration order.

Choices and observations:

* Addresses are identified with their printed form. The numbers of the exit codes OK and
  SYS_ASSERTION_FAILED come from the crate `fvm_shared`, which is not part of this model; all
  that is used of them is that they differ.
* `api/src/bench.rs:52` says that implicit messages ignore the nonce. The wrangler advances a sender's
  number for implicit messages too (`api/src/wrangler.rs:176-182`); the model follows the code.
* `take_invocations` empties the buffer before it converts (`api/src/wrangler.rs:251`), so a pending trace
  that is not a single call makes the whole take panic and the buffer is lost. `Wrangler.TakeSucceeds`
  states exactly when that happens.
* A label that itself contains `SpanStart:` can be started but not ended: its end message is read as
  another start. `Markers.EndMarkerRead` states exactly which end messages are read as such.
* A named span that is never closed keeps its own gas but shows an empty total (`Windows.UnclosedNamedSpan`).

## Model

| member | source | states |
|---|---|---|
| `Analysis.Build` | api/src/analysis.rs:25-93 | Completes exactly if calls and returns match, no label is ended more often than started, and the compute amounts and the other amounts of the gas events each sum to at most 2^64-1. Then the spans are Root and one per call and start message, in event order, each with an id that tells what it stands for and with the gas of its events. Overflow means, and for matching traces is the same as, too much gas in all. Any other panic is the one of the unbounded run |
| `EventSpans.SpansAreReported` | api/src/analysis.rs:25-93 | The spans of every matching trace are those its events call for: a call owns what is charged outside further calls until its return and totals everything until then, an ended label owns and totals what lies between its messages, a label left open owns the rest and totals nothing |
| `EventSpans.CompletionMeaning` | api/src/analysis.rs:35-88 | Well-bracketed and fitting roles are matching calls and messages and fitting sums on the events |
| `EventSpans.TallyHolds` | api/src/analysis.rs:37-41 | The tally of a stretch has exactly the names its gas events carry, under each name the compute and the other amounts of the events with that name, and the sums of both |
| `EventSpans.TotalGasMeaning` | api/src/analysis.rs:37-41 | All gas of a trace is the sum of the compute amounts and the sum of the other amounts of its gas events |
| `EventSpans.RoleMeaning` | api/src/analysis.rs:35-84 | An event charges, opens or closes exactly what its kind and fields say; messages open and close the label written in them |
| `EventSpans.StartMeaning` | api/src/analysis.rs:70-73 | A message starts a label if and only if its first `SpanStart:` is followed by that label between white space |
| `EventSpans.EndMeaning` | api/src/analysis.rs:74-78 | A message ends a label if and only if it has no `SpanStart:` and its first `SpanEnd:` is followed by that label between white space |
| `EventSpans.MessagesMeasure` | api/src/analysis.rs:64-82 | A start and an end message around the same label, with any prefixes free of markers and no message about the label in between: the span has the id of that label and owns and totals exactly the charges between the two events |
| `EventSpans.CallSpanHolds` | api/src/analysis.rs:47-63 | The span of a call totals the gas events until its return and owns those outside further calls |
| `EventSpans.NamedSpanHolds` | api/src/analysis.rs:70-81 | An ended named span owns and totals the gas events between its messages, also when the label is nested in itself |
| `EventSpans.OpenNamedSpanHolds` | api/src/analysis.rs:70-73 | A named span that is never ended owns all later gas events and totals nothing |
| `EventSpans.RootHolds` | api/src/analysis.rs:86-92 | Root has id `Root`, totals all gas events of the trace and owns those outside all calls |
| `EventSpans.CallReturns` | api/src/analysis.rs:53-88 | In a matching trace every call has its return event |
| `EventSpans.EverySpanHasAnEvent` | api/src/analysis.rs:47-73 | Every span after Root is opened by a call or a start message, at the place given by the number of earlier ones |
| `EventSpans.FirstUnmatched` | api/src/analysis.rs:53-79 | A trace that does not match has a first unmatched event, which is a return or an end message |
| `EventSpans.UnmatchedReturnPanics` | api/src/analysis.rs:55-62 | If that is a return, the analysis panics for want of a caller |
| `EventSpans.UnmatchedEndPanics` | api/src/analysis.rs:76-78 | If that is an end message, the panic tells whether its label was ever started |
| `EventSpans.UnknownLabelPanics` | api/src/analysis.rs:76-78 | A written end message whose label no earlier message starts makes the analysis panic with an unknown label |
| `EventSpans.UnclosedCallPanics` | api/src/analysis.rs:86-88 | If nothing is unmatched but a call does not return, the final assertion fails |
| `Runs.AnalysisMeasures` | api/src/analysis.rs:25-93 | The unbounded pass completes exactly on well-bracketed traces, and its spans are then the windows' tallies: ids, own gas and totals |
| `Runs.RunDescribes` | api/src/analysis.rs:27-85 | Invariant of every step: the stacks list exactly the open spans in opening order, every span holds what is measured on the events so far, and a run gets stuck exactly when something is closed that is not open |
| `Machine.ChargeStep` | api/src/analysis.rs:37-46 | A charge reaches exactly the innermost running call and every open named span |
| `Machine.OpenStep` | api/src/analysis.rs:47-52 | A call or span start adds one empty span with its id, open on top of its own stack, and changes no other |
| `Machine.ReturnStep` | api/src/analysis.rs:53-63 | A return settles the innermost call, adds everything charged while it ran to its caller's total, and changes no other span |
| `Machine.CloseNamedStep` | api/src/analysis.rs:74-81 | A span end settles the last opened open span of its label and changes no other span |
| `Runs.IndexDiscipline` | api/src/analysis.rs:27-33 | At every step all stacks are strictly increasing and in range, Root is at the bottom, and no span is on two stacks |
| `Runs.ClosedForever` | api/src/analysis.rs:53-81 | No continuation of a run changes or reopens a closed span |
| `Runs.Conservation` | api/src/analysis.rs:37-63 | At every step own gas plus totals of the open calls equal everything charged so far, by name and in both dimensions |
| `Runs.RootTotal` | api/src/analysis.rs:86-92 | Root totals every charge of the trace and owns those outside all calls, whatever named spans there are |
| `Runs.SpansFit` | api/src/analysis.rs:124-143 | If all charges together fit in u64, so does every amount of every span |
| `Windows.TallyMeaning` | api/src/analysis.rs:124-127 | A tally lists exactly the names that occur, each with the gas charged under it, and sums all charges |
| `Windows.WindowEndsAtMatch` | api/src/analysis.rs:53-81 | The window of a closed span ends right before the first event at which its key has been closed more often than opened |
| `Windows.NamedSpanMeasures` | api/src/analysis.rs:42-45 | A closed named span's own gas and total are exactly the charges between its start and its matching end, whatever calls cross that stretch |
| `Windows.UnclosedNamedSpan` | api/src/analysis.rs:70-73 | An unclosed named span owns every charge after its start and has no total |
| `Windows.CallSpanMeasures` | api/src/analysis.rs:47-63 | A call span totals every charge until its return and owns those outside the calls it makes |
| `Windows.MatchExists` | api/src/analysis.rs:53-81 | A span that does not stay open has a matching closing event |
| `Windows.EveryCallReturns` | api/src/analysis.rs:86-88 | In a well-bracketed trace no call stays open |
| `Windows.CloseIsLastOpened` | api/src/analysis.rs:55-78 | A close goes to the span opened last among those open under its key; the others stay open |
| `Windows.FirstFailure` | api/src/analysis.rs:53-79 | A run stops at the first unmatched close; the panic tells a return, a label never started, and a label not open apart |
| `Windows.WhyItPanics` | api/src/analysis.rs:55-88 | A trace panics at its first unmatched close or, if there is none, at the final assertion because a call is left open |
| `Analysis.CheckedPlus` | api/src/analysis.rs:211-227 | Adds both dimensions, or reports overflow exactly when one of them leaves u64 |
| `Analysis.Span.constructor` | api/src/analysis.rs:113-121 | A new span has its id and no gas |
| `Analysis.Span.AddSelfGas` | api/src/analysis.rs:124-127 | Credits sum and entry of the own gas, or reports overflow exactly when one of them does not fit |
| `Analysis.Span.AddSelfToTotalGas` | api/src/analysis.rs:130-135 | Merges the own gas into the total, name by name, or reports overflow exactly when something does not fit |
| `Analysis.Span.AddOtherToTotalGas` | api/src/analysis.rs:138-143 | Merges another span's total into the total, or reports overflow exactly when something does not fit |
| `Analysis.ChargeSpan` | api/src/analysis.rs:39-45 | Whatever order the labels are visited in, exactly the receiving spans are credited once; a failure means one of the credited amounts does not fit |
| `Analysis.OpenSpan` | api/src/analysis.rs:48-51 | Appends one new object and leaves the existing spans alone |
| `Analysis.ReturnFromCall` | api/src/analysis.rs:54-62 | Settles the top call and adds its total to its caller; panics when there is no caller or an amount does not fit |
| `Analysis.CloseNamedSpan` | api/src/analysis.rs:74-80 | Pops and settles the last open span of the label; panics when the label is unknown or has none open |
| `Analysis.ProcessLog` | api/src/analysis.rs:64-82 | A log message acts as the marker found in it |
| `Analysis.CloseRoot` | api/src/analysis.rs:86-92 | The end of the pass fails exactly when a call is still open or the totals do not fit |
| `Markers.Find` | api/src/analysis.rs:70-74 | The first occurrence of a pattern, or none when it does not occur |
| `Markers.TrimMeaning` | api/src/analysis.rs:71-75 | Trimming removes exactly the white space at both ends |
| `Markers.StartMarkerRead` | api/src/analysis.rs:68-73 | A start message announces its label if and only if no start marker precedes it |
| `Markers.EndMarkerRead` | api/src/analysis.rs:74-78 | An end message closes its label if and only if neither marker precedes it and the label contains no start marker |
| `Markers.MarkersPairUp` | api/src/analysis.rs:68-78 | Start and end messages around the same label refer to the same span label, for any prefixes without markers |
| `SpanIds.CallIdReadsBack` | api/src/analysis.rs:49 | From the id of a call span its number, caller, callee and method can be read back, whatever characters the address has |
| `SpanIds.LabelIdReadsBack` | api/src/analysis.rs:72 | From the id of a named span its number and label can be read back |
| `SpanIds.TagsTellApart` | api/src/analysis.rs:49-72 | Different calls and different labels have different tags, and no call has the tag of a label |
| `EventSpans.CallSpanId` | api/src/analysis.rs:47-51 | From the id of the span a call event opens one reads its place among the spans and the event's caller, callee and method |
| `EventSpans.NamedSpanId` | api/src/analysis.rs:70-73 | From the id of the span a start message opens one reads its place among the spans and the label |
| `SpanIds.UniqueIds` | api/src/analysis.rs:27-72 | Any two spans of an analysis have different ids, whatever digits, dashes or parentheses labels and addresses contain |
| `Text.DecimalReadsBack` | api/src/analysis.rs:49-72 | A printed number is read back from its digits |
| `Invocation.ToInvocation` | api/src/trace.rs:77-154 | Succeeds exactly when the calls and returns form one call; then the tree prints the normalised calls and returns, and every tree that does is the one returned |
| `Invocation.ConversionLanguage` | api/src/trace.rs:108-152 | The accepted traces are those whose depth is positive between a first call and the return that ends it all |
| `Invocation.PrintAfterParse` | api/src/trace.rs:83-145 | Printing a converted trace gives its calls and returns, errors shown as failed returns and only gas limit, read-only flag and error details lost |
| `Invocation.ParseAfterPrint` | api/src/trace.rs:77-153 | Converting any trace that prints a tree, with other events anywhere, returns that tree |
| `Invocation.PrintInjective` | api/src/trace.rs:77-153 | Printed trees are prefix-free and determine the tree |
| `Invocation.WhereItStops` | api/src/trace.rs:108-142 | A conversion stops in the middle at a return below depth one or at a second return to depth zero, with the panic of that kind |
| `Invocation.WhyItFailsAtTheEnd` | api/src/trace.rs:148-152 | At the end it fails exactly when calls are left open or there was no call |
| `EventTree.TreeMirrorsEvents` | api/src/trace.rs:77-154 | When the conversion returns a tree, it has one invocation per call event; the j-th call is the j-th invocation in pre-order, with the event's caller, callee, method, parameters and value, with the return value and exit code of the matching return (none and an assertion failure for an error), without error number, and with exactly the calls in between below it |
| `EventTree.AcceptsSingleCalls` | api/src/trace.rs:108-152 | The conversion returns a tree if and only if the trace is one call with its return and no call or return before or after |
| `EventTree.BracketsOfEvents` | api/src/trace.rs:83-145 | The depth that locates the conversion's failures is calls minus returns on the events |
| `EventTree.SameEvents` | api/src/trace.rs:77-154 | If the conversion returns a tree and no end message is unmatched, every call has a span and an invocation that tell the same caller, callee and method, and the span holds the gas until the return the invocation records |
| `CallTree.CallNetIsDepth` | api/src/analysis.rs:47-63 | The call depth seen by the analysis is the bracket depth seen by the conversion |
| `Agreement.MachinesAgree` | api/src/trace.rs:77-154 | If the conversion returns a tree and no span end is unmatched, the unbounded analysis completes too, has one call span per node after Root, and gas rolls up along the tree |
| `Agreement.GasFollowsTheTree` | api/src/analysis.rs:53-63 | For every forest of calls, each call span's total is its own gas plus the totals of the spans of the invocations it made, by name and in both dimensions; likewise Root |
| `Agreement.SpansAreInvocations` | api/src/analysis.rs:47-51 | From the ids of the call spans one reads caller, callee and method of the invocations, in pre-order |
| `Agreement.CallForest` | api/src/analysis.rs:47-63 | Every trace whose calls and returns match prints a forest of invocations |
| `Format.Units` | api/src/analysis.rs:194-203 | Milligas in gas units: zero below 1000, the ceiling from there on |
| `Format.Total` | api/src/analysis.rs:194-208 | The shown amount, or overflow exactly when the two dimensions together leave u64 |
| `Format.StableSortCorrect` | api/src/analysis.rs:168 | The modelled sort is descending and keeps equal amounts in order |
| `Format.StableSortUnique` | api/src/analysis.rs:168 | No other descending arrangement keeps equal amounts in order, so any stable sort gives the same result |
| `Format.SumFirstInEverySpan` | api/src/analysis.rs:163-169 | For own gas and total of every span of every analysis, any stable sort of any listing puts "sum" first and permutes the rest |
| `Format.FormatGasBits` | api/src/analysis.rs:163-170 | Fails exactly when some amount cannot be added in u64; otherwise lists all entries, stably sorted, "sum" first |
| `Format.FormattingOverflow` | api/src/analysis.rs:206-208 | Formatting all spans overflows nowhere if and only if the compute and other amounts of all gas events together sum to at most 2^64-1 |
| `Format.RoundingError` | api/src/analysis.rs:194-203 | With k names, the shown amounts add up to at most k less and at most k - 1 more than the shown sum |
| `Format.RoundingErrorReached` | api/src/analysis.rs:194-203 | The lower bound is attained: two charges of 999 milligas show as 0 each and as 2 together |
| `Wrangler.ExecutionWrangler.Execute` | api/src/wrangler.rs:163-190 | One execution: the message sent, the reply passed on, and the new sequences and buffer; a failure changes neither |
| `Wrangler.ExecutionWrangler.ExecuteMessage` | api/src/wrangler.rs:227-236 | Executes explicitly: the bench's last call has the caller's arguments and is not implicit |
| `Wrangler.ExecutionWrangler.ExecuteMessageImplicit` | api/src/wrangler.rs:238-247 | Executes implicitly: the bench's last call has the caller's arguments and is implicit; the effect on the driver is the same |
| `Wrangler.ExecutionMeaning` | api/src/wrangler.rs:134-190 | One execution asks the bench once, with the request's fields, the driver's limits and the sender's number; a success passes on exit code, return data and message, appends the trace and raises the number by one; a failure passes on the error and changes nothing |
| `Wrangler.CallsAreRequests` | api/src/wrangler.rs:163-247 | Over any run the bench is asked for exactly the requested executions, in order, each with its own fields and implicit flag and the driver's limits |
| `Wrangler.WhenRunsPanic` | api/src/wrangler.rs:180-252 | A run goes on unless an execution succeeds for a sender with 2^64-1 successes or a take meets a trace that is not one call |
| `Wrangler.ExecutionWrangler.PeekExecutionTrace` | api/src/wrangler.rs:127-129 | The last pending trace, with nothing changed |
| `Wrangler.ExecutionWrangler.TakeInvocations` | api/src/wrangler.rs:250-252 | Empties the buffer and returns all its trees in order, or fails at the first trace that cannot be converted |
| `Wrangler.RunsAreAccounted` | api/src/wrangler.rs:163-252 | Over any run without panic, against any bench: taken trees and pending traces are in order the traces of all successful executions; each sender's number counts its successes; every message carries the number of earlier successes of its sender |
| `Wrangler.SuccessesNumbered` | api/src/wrangler.rs:173-182 | A sender's successful messages carry 0, 1, 2, ... without gaps |
| `Wrangler.SequencesAddUp` | api/src/wrangler.rs:180-185 | The senders' numbers add up to trees taken plus traces pending |
| `Wrangler.NothingLost` | api/src/wrangler.rs:183-252 | If all successful traces are convertible, taken trees followed by the conversion of the buffer are the in-order conversion of them all |
| `Wrangler.TakeSucceeds` | api/src/wrangler.rs:250-252 | A take succeeds if and only if every pending trace is one call |
| `Wrangler.ConvertAllMeaning` | api/src/wrangler.rs:250-252 | A sequence of traces converts exactly when each trace does, keeping number and order |

## Left out

- Analysis.Build: for a trace whose calls or messages do not match and whose gas does not fit either, it is not stated which of the two panics comes first, because that depends on how the gas is spread over the spans.
- Wrap-around: builds without overflow checks wrap instead of panicking; only the checked behaviour is modelled.
- Printed text: joining span lines, thousands separators and the Debug form of traces are not modelled; the order and amounts of the printed entries are.
- Sorting: the library's sort is represented by an insertion sort on values, not by its in-place algorithm; `Format.StableSortUnique` shows that the result is the same.
- Stack of unfinished invocations: its elements are values that are replaced, not objects changed in place; no two of them are ever shared in the program.
- After a panic: runs of the wrangler end at the first panic; what a program that catches the panic would see next is not modelled beyond the emptied buffer.
- Execution results: receipts, penalties, tips and burned gas are not kept; the driver passes on exit code, return data, message and trace only.
- The bench and the VM behind it: an arbitrary function of the calls made so far; nothing is claimed about on-chain nonces.
- Conversion of FVM traces (`vm/src/bench/mod.rs:327-348`): a per-event renaming that would only add an easy lemma.
- Wrangler getters and setters, address and balance lookup, actor state and message length: plumbing.
- Genesis, builder, externs, blockstore and kernel wrappers: scripts and forwarding to code not in this repository.
