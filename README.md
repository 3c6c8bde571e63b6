# DFA file processor: automaton core and simplified maximal munch

The repository holds two C++ programs that share one deterministic finite
automaton engine. They read a list of state names and an ordered transition
table.

- `dfa_processor.cpp` runs each input string from the start state, which is
  the first declared state. It reports the string as accepted or rejected.
- `dfa_simplified_maximal_munch_algorithm.cpp` cuts one buffer into tokens by
  the "simplified maximal munch" rule.

This project models the shared engine and both programs in three modules.

- `Automaton` (`automaton.dfy`) covers the shared engine.
  - Symbols: `a-z`-style inclusive ranges and one-character literals.
  - The `!` marker on state names, and one-way aliasing: a marked name also
    sees the transitions declared from its unmarked form.
  - First-match transition lookup, as the specification function `Lookup`
    and as the imperative scan `FindTransition`, which is proved equal to it.
  - Runs of the automaton over a string (`Run`).
- `Processor` (`processor.dfy`) covers the
  acceptance program.
  - Its accepting predicate: the name ends in `!`, or its marked form is
    declared.
  - The per-input simulation loop `Accepts`, proved equal to the
    specification `Accepted`.
  - The driver loop `ProcessInputs`, which judges every input on its own.
- `MaximalMunch` (`maximal_munch.dfy`) covers the tokenizer.
  - Its accepting predicate: strip one `!`, then look up the marked form.
  - A recursive specification `Munch` of what the tokenizer produces,
    segment by segment.
  - The imperative `Tokenize` loop, with index rewind, token buffer and
    checkpoint, proved to return exactly `Munch` of its input.
  - Proved about `Munch`:
    - the tokens are contiguous from the start of the buffer;
    - they concatenate to the buffer exactly on success;
    - each token is the longest accepted prefix of what is left;
    - a failure stops at a dead end without a checkpoint, or at a
      non-accepting trailer.

Modelling conventions:

- **Results.** The printed tokens are the returned `tokens`, and the
  `"SUCCESS"`/`"ERROR"` strings are the boolean `ok`.
  - Tokens printed before a failure stay in `tokens`, as they stay on the
    output.
- **Loop state.** The tokenizer's loop variables are one record, `Scan`.
  - `Scan` holds `index`, `token`, `current`, `lastAcceptingPos` and
    `lastValidToken`, plus the tokens emitted so far.
  - `string::npos` is `None`.
- **Loop proof.** `Drive` is the loop written as a function.
  - It reads the input from where the current token began.
  - `Resume` links the loop variables to it, and the loop invariant is that
    `Resume` of the current variables is `Munch` of the whole input.
  - `DriveMunch` proves that `Drive` computes `Munch`.
  - A second invariant, `ReadFrom`, states what the variables hold of the
    input: `token` is the input from the token's start up to `index`, and
    `lastValidToken` is the input from that start through `lastAcceptingPos`.

Behaviours of the code that the model keeps, each shown by a lemma:

- **Declaration order shadows.** With `A a-z A` declared before `A z B`, the
  character `z` from `A` goes to `A`, so with `B` accepting, "abz" is
  rejected (`Processor.ShadowedScenario`).
- **Every letter its own token.** With `A a-z B` and `B` accepting,
  the buffer "aab" gives the tokens "a", "a", "b" and succeeds
  (`MaximalMunch.SingleLetterTokens`).
- **Aliasing is one-way, not a merge.** A marked name and its unmarked
  form look up alike whenever nothing is declared from the marked name
  (`Automaton.MarkedAliasAgrees`); a transition declared from the marked name
  can make them differ (`Automaton.MarkedAliasDiffers`).
- **Failure is fatal.** Tokens emitted before a failure stay emitted, and
  the run aborts rather than skipping ahead (`MaximalMunch.BacktrackThenAbort`).
- **No backtrack at the end of the buffer.** A non-accepting leftover fails
  the whole run even when an earlier accepting checkpoint exists
  (`MaximalMunch.NoBacktrackAtEnd`).

## Model

| member | source | states |
|---|---|---|
| Automaton.Matches | dfa_processor.cpp:15-21 | a symbol of three characters with '-' in the middle is an inclusive range; any other symbol is a literal that must equal the one-character string |
| Automaton.MatchesRange | dfa_processor.cpp:17-19 | a three-character symbol with '-' in the middle matches exactly the characters between its ends, both included; a reversed range matches nothing |
| Automaton.MatchesLiteral | dfa_processor.cpp:20 | any other symbol matches only the one character it consists of; symbols of length 0, 2 or more match nothing |
| Automaton.EligibleOneWay | dfa_processor.cpp:140-145 | from an unmarked name only its own transitions are eligible; from its marked form both its own and the unmarked name's are |
| Automaton.Lookup | dfa_processor.cpp:139-158 | the next state: the target of the first transition, in declaration order, that is declared from the current name or its `!`-stripped form and has a symbol matching the character; None when there is none |
| Automaton.LookupIsFirstFiring | dfa_processor.cpp:139-158 | the earliest transition in declaration order that is eligible and has a matching symbol decides the next state |
| Automaton.LookupNoneIffNoneFires | dfa_processor.cpp:139-158 | there is no transition exactly when no declared transition is eligible with a matching symbol |
| Automaton.LookupTargetFires | dfa_processor.cpp:149-150 | a found next state is the target of a declared transition that fires |
| Automaton.MarkedAliasAgrees | dfa_processor.cpp:140-145 | a marked name and its unmarked form look up alike when nothing is declared from the marked name |
| Automaton.MarkedAliasDiffers | dfa_processor.cpp:140-145 | a transition declared from `A!` fires from `A!` but not from `A` |
| Automaton.EarlierRangeShadows | dfa_processor.cpp:139-158 | with `A a-z A` before `A z B`, `z` from `A` goes to `A` |
| Automaton.FindTransition | dfa_simplified_maximal_munch_algorithm.cpp:48-77 | the nested scan over transitions and their symbols returns the first-match lookup |
| Automaton.Run | dfa_processor.cpp:136-164 | the lookup folded over the input from a given state; None from the first character with no transition on |
| Automaton.RunAppend | dfa_processor.cpp:136-164 | running over `u + v` is running over `u` and then over `v` from where `u` stopped |
| Automaton.RunShortCircuit | dfa_processor.cpp:159-163 | once a run has hit a missing transition, no continuation revives it |
| Automaton.RunSnoc | dfa_simplified_maximal_munch_algorithm.cpp:58-61 | one more character extends a run by exactly one lookup |
| Automaton.RunDeadEnd | dfa_processor.cpp:159-163 | a missing transition at position `i` makes the run of every longer prefix fail |
| Processor.IsAccepting | dfa_processor.cpp:43-53 | a state is accepting when its name ends in '!' or its name followed by '!' is a declared state |
| Processor.IsAcceptingCases | dfa_processor.cpp:43-53 | a marked name is always accepting; an unmarked one is accepting exactly when its marked form is declared |
| Processor.Accepted | dfa_processor.cpp:129-172 | an input is accepted when its run from the first declared state meets no missing transition and ends in an accepting state |
| Processor.Accepts | dfa_processor.cpp:129-172 | the simulation of one input returns true exactly when the run from the first state meets no dead end and ends accepting |
| Processor.ProcessInputs | dfa_processor.cpp:129-173 | one verdict per input, in input order, each from a fresh start state |
| Processor.AcceptedEmpty | dfa_processor.cpp:130-168 | the empty input is accepted exactly when the start state is accepting |
| Processor.AcceptedShortCircuit | dfa_processor.cpp:159-168 | the first character with no transition rejects the input and every extension of it |
| Processor.AcceptedAlongPath | dfa_processor.cpp:136-168 | a path from the start state through `mid` to an accepting state makes the input accepted |
| Processor.ShadowedScenario | dfa_processor.cpp:139-172 | with `A a-z A` before `A z B` and `B` accepting, "abz" and "ab" are rejected; with the order swapped "abz" is accepted |
| Processor.MarkedStartAcceptsEmpty | dfa_processor.cpp:46-52 | a marked start state accepts the empty input with no transitions |
| MaximalMunch.IsAccepting | dfa_simplified_maximal_munch_algorithm.cpp:24-30 | a state is accepting when its name, with at most one trailing '!' removed and then '!' appended, is a declared state |
| MaximalMunch.IsAcceptingIgnoresMarker | dfa_simplified_maximal_munch_algorithm.cpp:24-30 | a name and its marked form are both accepting or both not, exactly when the marked form is declared |
| MaximalMunch.IsAcceptingVersusProcessor | dfa_simplified_maximal_munch_algorithm.cpp:24-30 | the two programs agree on unmarked names; a marked name is accepting here only when declared, and the tokenizer's accepting names are accepting in the acceptance program |
| MaximalMunch.UndeclaredMarkedName | dfa_simplified_maximal_munch_algorithm.cpp:24-30 | an undeclared `X!` is accepting for the acceptance program and not for the tokenizer |
| MaximalMunch.LongestUpTo | dfa_simplified_maximal_munch_algorithm.cpp:65-70 | the checkpoint after scanning `n` characters of a token: the length of the longest accepted prefix of at most `n` characters, which lies between 1 and `n` when there is one |
| MaximalMunch.LongestUpToSpec | dfa_simplified_maximal_munch_algorithm.cpp:65-70 | the checkpoint is an accepted non-empty prefix, and no longer prefix up to the scan position is accepted |
| MaximalMunch.LongestCharacterized | dfa_simplified_maximal_munch_algorithm.cpp:65-70 | the longest accepted prefix is determined by which prefixes are accepted |
| MaximalMunch.Tokenize | dfa_simplified_maximal_munch_algorithm.cpp:32-111 | the tokenizer loop returns exactly the maximal-munch tokenization and status of its input; throughout, the token and the checkpointed token are the input slices from the token's start |
| MaximalMunch.MunchOutcome | dfa_simplified_maximal_munch_algorithm.cpp:32-111 | the tokenizer's result is maximal munch, concatenates to the input exactly on success, and on failure leaves a non-empty rest that fails |
| MaximalMunch.MunchCovers | dfa_simplified_maximal_munch_algorithm.cpp:79-86 | the tokens are contiguous from the start of the buffer, and their concatenation is the buffer exactly on success |
| MaximalMunch.MunchFailure | dfa_simplified_maximal_munch_algorithm.cpp:87-104 | a failure leaves a non-empty rest that has a dead end with no accepted prefix, or runs to its end in a non-accepting state |
| MaximalMunch.MunchMaximal | dfa_simplified_maximal_munch_algorithm.cpp:65-86 | each token is the longest accepted prefix of what the tokens before it leave over |
| MaximalMunch.DeadEndAtTokenStart | dfa_simplified_maximal_munch_algorithm.cpp:79-93 | a dead end on the first character of a token fails at once with nothing emitted |
| MaximalMunch.DeadEndLongest | dfa_simplified_maximal_munch_algorithm.cpp:79-83 | at a dead end the whole run fails, and the longest accepted prefix is the one scanned before the dead end |
| MaximalMunch.DeadEndFails | dfa_simplified_maximal_munch_algorithm.cpp:87-93 | a dead end with no accepted prefix scanned fails the tokenization |
| MaximalMunch.DeadEndSplits | dfa_simplified_maximal_munch_algorithm.cpp:79-86 | a dead end with a checkpoint emits the checkpointed prefix and continues just after it |
| MaximalMunch.ScanStep | dfa_simplified_maximal_munch_algorithm.cpp:58-70 | a consumed character extends the run by one transition, and the checkpoint moves to the whole token exactly when the new state is accepting |
| MaximalMunch.Munch | dfa_simplified_maximal_munch_algorithm.cpp:40-110 | the tokenization segment by segment: the empty rest succeeds; a rest that runs to its end succeeds as one token if it ends accepting and fails otherwise; a rest with a dead end emits its longest accepted prefix and goes on after it, or fails when it has none |
| MaximalMunch.Drive | dfa_simplified_maximal_munch_algorithm.cpp:40-110 | the tokenizer's loop from where the current token began, one iteration per step: consume, emit and rewind to the checkpoint, or fail; then the final checks at the end of the buffer |
| MaximalMunch.ReadingConsumes | dfa_simplified_maximal_munch_algorithm.cpp:58-70 | consuming a character keeps the token a prefix of the input whose run reaches the new state, and the checkpoint becomes the whole token exactly when that state is accepting |
| MaximalMunch.DriveMunch | dfa_simplified_maximal_munch_algorithm.cpp:40-110 | from any scan state whose token and checkpoint agree with the input, the rest of the run emits the maximal-munch tokenization of the rest of the input |
| MaximalMunch.DriveConsumes | dfa_simplified_maximal_munch_algorithm.cpp:58-70 | consuming a character keeps the rest of the run equal to the maximal-munch tokenization |
| MaximalMunch.DriveEmits | dfa_simplified_maximal_munch_algorithm.cpp:79-86 | rewinding to just after the checkpoint keeps the rest of the run equal to the maximal-munch tokenization |
| MaximalMunch.DriveEnds | dfa_simplified_maximal_munch_algorithm.cpp:100-110 | the final checks at the end of the buffer agree with the maximal-munch tokenization |
| MaximalMunch.DriveFromStart | dfa_simplified_maximal_munch_algorithm.cpp:33-38 | the run from the initial variables is the maximal-munch tokenization of the whole input |
| MaximalMunch.ResumeConsumes | dfa_simplified_maximal_munch_algorithm.cpp:58-70 | the consume branch, index and checkpoint updates included, keeps the loop variables in range and the outcome unchanged |
| MaximalMunch.ResumeEmits | dfa_simplified_maximal_munch_algorithm.cpp:79-86 | the emit-and-rewind branch keeps the loop variables in range and the outcome unchanged |
| MaximalMunch.ResumeAborts | dfa_simplified_maximal_munch_algorithm.cpp:87-93 | a dead end without a checkpoint ends the run in failure with the tokens emitted so far |
| MaximalMunch.ResumeEnds | dfa_simplified_maximal_munch_algorithm.cpp:100-110 | at the end of the buffer the outcome is the final checks: a non-accepting pending token fails, otherwise the checkpointed token, if any, is emitted |
| MaximalMunch.ReadFromConsumes | dfa_simplified_maximal_munch_algorithm.cpp:58-70 | after the consume branch the token is still the input from its start up to `index`, and a new checkpoint token is that whole slice |
| MaximalMunch.ReadFromEmits | dfa_simplified_maximal_munch_algorithm.cpp:79-86 | after the emit branch the token is empty, starting just after the old checkpoint, with no checkpoint |
| MaximalMunch.ResumeFromStart | dfa_simplified_maximal_munch_algorithm.cpp:33-38 | the initial loop variables are in range and lead to the maximal-munch tokenization |
| MaximalMunch.SingleLetterTokens | dfa_simplified_maximal_munch_algorithm.cpp:79-86 | with `A a-z B` and `B` accepting, "aab" gives "a", "a", "b" and succeeds |
| MaximalMunch.BacktrackThenAbort | dfa_simplified_maximal_munch_algorithm.cpp:79-93 | "ab#cd" over lower-case words emits "ab" and then fails at '#' without reaching "cd" |
| MaximalMunch.NoBacktrackAtEnd | dfa_simplified_maximal_munch_algorithm.cpp:100-104 | "a" alone is a token, yet "ab" fails with nothing emitted because the leftover is not accepting |

## Left out

- Reading the `.STATES`, `.TRANSITIONS` and `.INPUT` sections in both `main` functions is not modelled. The state list and transition table are parameters. This includes the stream quirk where trailing whitespace turns the target state into a symbol.
- `split_inputs`, `split_states` and the `.EMPTY` display marker are not modelled. They are whitespace splitting and display convention; the engine sees the empty string.
- Printing is not modelled. Tokens are returned in order, and `"SUCCESS"`/`"ERROR"` is the boolean `ok`. The error messages on the error stream are dropped.
- The tokenizer driver's rule that an empty buffer is reported as a failure without calling `tokenize` is not modelled. `Tokenize` itself succeeds on the empty buffer with no tokens, as the function does.
- C++ `char` signedness in range comparisons is not modelled. Characters compare by their Dafny `char` ordinal, which agrees with the programs on ASCII.
- `states.front()` on an empty state list is undefined behaviour in C++. Every member that needs the start state requires a non-empty state list.
- The tokenizer's `last_accepting_state` variable is not modelled. It is written but never read.
- The linear cost of the transition scan is not modelled; only its order of evaluation is. The marker is stripped once per lookup rather than once per transition, which computes the same name.
