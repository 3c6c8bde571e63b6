/**
 * The tokenizer program: simplified maximal munch over one buffer. The scan
 * keeps a checkpoint (position and text of the longest accepting prefix of
 * the token in progress); at a dead end it emits the checkpointed token and
 * resumes just after it, or fails when there is no checkpoint. At the end of
 * the buffer there is no backtracking: a non-accepting leftover fails.
 */
module MaximalMunch {
  import opened Automaton
  import Processor

  /**
   * Accepting in the tokenizer program: strip at most one trailing '!' and
   * look the marked form up among the declared states.
   */
  predicate IsAccepting(state: string, states: seq<string>)
  {
    Base(state) + "!" in states
  }

  /** An unmarked name and its marked form are always both accepting or both not. */
  lemma IsAcceptingIgnoresMarker(state: string, states: seq<string>)
    requires !Marked(state)
    ensures IsAccepting(state, states) <==> IsAccepting(state + "!", states)
    ensures IsAccepting(state, states) <==> state + "!" in states
  {
    assert Marked(state + "!");
    assert (state + "!")[..|state + "!"| - 1] == state;
  }

  /**
   * How the two programs' accepting predicates relate: they agree on
   * unmarked names, and a marked name is accepting here only when it is
   * itself declared, while the acceptance program accepts every marked name.
   */
  lemma IsAcceptingVersusProcessor(state: string, states: seq<string>)
    ensures !Marked(state) ==> (IsAccepting(state, states) <==> Processor.IsAccepting(state, states))
    ensures Marked(state) ==> (IsAccepting(state, states) <==> state in states)
    ensures Marked(state) ==> Processor.IsAccepting(state, states)
    ensures IsAccepting(state, states) ==> Processor.IsAccepting(state, states)
  {
  }

  /** An undeclared marked name: accepting for the acceptance program, not for the tokenizer. */
  lemma UndeclaredMarkedName()
    ensures Processor.IsAccepting("X!", ["A"]) && !IsAccepting("X!", ["A"])
  {
    assert Marked("X!") && "X!"[..1] == "X" && "X" + "!" == "X!" && "X!" != "A";
  }

  /** A candidate token is accepted when its run from the start state ends in an accepting state. */
  predicate AcceptsToken(states: seq<string>, transitions: seq<Transition>, token: string)
    requires |states| > 0
  {
    var last := Run(transitions, states[0], token);
    last.Some? && IsAccepting(last.value, states)
  }

  /** The longest accepted non-empty prefix of `w` no longer than `n`, as its length. */
  function LongestUpTo(states: seq<string>, transitions: seq<Transition>, w: string, n: nat): (r: Option<nat>)
    requires |states| > 0 && n <= |w|
    ensures r.Some? ==> 1 <= r.value <= n
    decreases n
  {
    if n == 0 then None
    else if AcceptsToken(states, transitions, w[..n]) then Some(n)
    else LongestUpTo(states, transitions, w, n - 1)
  }

  /**
   * What `LongestUpTo` finds: an accepted non-empty prefix no longer than
   * `n`, with no accepted prefix between it and `n`; None exactly when no
   * prefix of length 1 to `n` is accepted.
   */
  lemma {:induction false} LongestUpToSpec(states: seq<string>, transitions: seq<Transition>, w: string, n: nat)
    requires |states| > 0 && n <= |w|
    ensures var r := LongestUpTo(states, transitions, w, n);
            r.Some? ==> AcceptsToken(states, transitions, w[..r.value])
    ensures var r := LongestUpTo(states, transitions, w, n);
            forall m :: (if r.Some? then r.value else 0) < m <= n ==> !AcceptsToken(states, transitions, w[..m])
    decreases n
  {
    if n > 0 && !AcceptsToken(states, transitions, w[..n]) {
      LongestUpToSpec(states, transitions, w, n - 1);
    }
  }

  /** The longest accepted non-empty prefix of `w`, as its length. */
  function Longest(states: seq<string>, transitions: seq<Transition>, w: string): Option<nat>
    requires |states| > 0
  {
    LongestUpTo(states, transitions, w, |w|)
  }

  /** `Longest` is determined by the accepted prefixes: it is the longest of them, or None when there is none. */
  lemma LongestCharacterized(states: seq<string>, transitions: seq<Transition>, w: string, n: nat)
    requires |states| > 0 && n <= |w|
    requires forall m :: n < m <= |w| ==> !AcceptsToken(states, transitions, w[..m])
    ensures n == 0 ==> Longest(states, transitions, w) == None
    ensures 0 < n && AcceptsToken(states, transitions, w[..n]) ==> Longest(states, transitions, w) == Some(n)
  {
    var r := LongestUpTo(states, transitions, w, |w|);
    LongestUpToSpec(states, transitions, w, |w|);
    if r.Some? {
      var k := r.value;
      assert AcceptsToken(states, transitions, w[..k]);
      assert 0 < k <= n;
      if k < n {
        assert !AcceptsToken(states, transitions, w[..n]);
      }
    } else if 0 < n {
      assert !AcceptsToken(states, transitions, w[..n]);
    }
  }

  /** The outcome of a tokenization: the emitted tokens, in order, and whether it succeeded. */
  datatype Tokenization = Tokenization(tokens: seq<string>, ok: bool)

  /** Earlier emissions followed by the outcome of the rest. */
  function Then(emitted: seq<string>, rest: Tokenization): Tokenization
  {
    Tokenization(emitted + rest.tokens, rest.ok)
  }

  /**
   * What the tokenizer produces for `w`, segment by segment. If the whole of
   * `w` runs without a dead end, the scan reaches the end of the buffer and
   * the result depends on the final state alone. Otherwise a dead end comes
   * first, and the longest accepted prefix (if any) is emitted.
   */
  function Munch(states: seq<string>, transitions: seq<Transition>, w: string): Tokenization
    requires |states| > 0
    decreases |w|
  {
    if w == [] then Tokenization([], true)
    else match Run(transitions, states[0], w)
      case Some(last) =>
        if IsAccepting(last, states) then Tokenization([w], true) else Tokenization([], false)
      case None =>
        match Longest(states, transitions, w)
        case None => Tokenization([], false)
        case Some(n) => Then([w[..n]], Munch(states, transitions, w[n..]))
  }

  /** The tokens laid end to end. */
  function Concat(tokens: seq<string>): string
  {
    if tokens == [] then "" else tokens[0] + Concat(tokens[1..])
  }

  /** `token` is the longest non-empty prefix of `w` that the automaton accepts. */
  ghost predicate IsLongestAccepted(states: seq<string>, transitions: seq<Transition>, w: string, token: string)
    requires |states| > 0
  {
    && 0 < |token| <= |w|
    && token == w[..|token|]
    && AcceptsToken(states, transitions, token)
    && forall m :: |token| < m <= |w| ==> !AcceptsToken(states, transitions, w[..m])
  }

  /** Each token is the longest accepted prefix of what the tokens before it leave over. */
  ghost predicate IsMaximalMunch(states: seq<string>, transitions: seq<Transition>, w: string, tokens: seq<string>)
    requires |states| > 0
    decreases |tokens|
  {
    tokens == [] ||
    (IsLongestAccepted(states, transitions, w, tokens[0]) &&
     IsMaximalMunch(states, transitions, w[|tokens[0]|..], tokens[1..]))
  }

  /**
   * The failure cases: what is left after the emitted tokens is non-empty,
   * and either no non-empty prefix of it is accepted (a dead end without a
   * checkpoint) or all of it runs to a non-accepting state (an unaccepted
   * trailer, with no backtracking to an earlier checkpoint).
   */
  ghost predicate FailsOn(states: seq<string>, transitions: seq<Transition>, rest: string)
    requires |states| > 0
  {
    && rest != []
    && (|| (Run(transitions, states[0], rest).None? && Longest(states, transitions, rest).None?)
        || (Run(transitions, states[0], rest).Some? && !IsAccepting(Run(transitions, states[0], rest).value, states)))
  }

  /**
   * The tokens are laid end to end from the start of `w`, and their
   * concatenation is `w` exactly on success.
   */
  lemma {:induction false} MunchCovers(states: seq<string>, transitions: seq<Transition>, w: string)
    requires |states| > 0
    ensures |Concat(Munch(states, transitions, w).tokens)| <= |w|
    ensures Concat(Munch(states, transitions, w).tokens) == w[..|Concat(Munch(states, transitions, w).tokens)|]
    ensures Munch(states, transitions, w).ok <==> Concat(Munch(states, transitions, w).tokens) == w
    decreases |w|
  {
    var result := Munch(states, transitions, w);
    if w != [] && Run(transitions, states[0], w).None? && Longest(states, transitions, w).Some? {
      var n := Longest(states, transitions, w).value;
      var rest := w[n..];
      var tail := Munch(states, transitions, rest);
      MunchCovers(states, transitions, rest);
      assert result.tokens == [w[..n]] + tail.tokens;
      ConcatCons(w[..n], tail.tokens);
      assert w == w[..n] + rest;
    } else if w != [] && Run(transitions, states[0], w).Some? && IsAccepting(Run(transitions, states[0], w).value, states) {
      ConcatCons(w, []);
    }
  }

  /**
   * A failed tokenization stops at one of the two failure cases: what the
   * emitted tokens leave over is non-empty, and either has no accepted
   * non-empty prefix before a dead end, or runs to its end in a
   * non-accepting state.
   */
  lemma {:induction false} MunchFailure(states: seq<string>, transitions: seq<Transition>, w: string)
    requires |states| > 0
    requires !Munch(states, transitions, w).ok
    ensures |Concat(Munch(states, transitions, w).tokens)| < |w|
    ensures FailsOn(states, transitions, w[|Concat(Munch(states, transitions, w).tokens)|..])
    decreases |w|
  {
    var result := Munch(states, transitions, w);
    var run := Run(transitions, states[0], w);
    if run.None? && Longest(states, transitions, w).Some? {
      var n := Longest(states, transitions, w).value;
      var rest := w[n..];
      var tail := Munch(states, transitions, rest);
      MunchFailure(states, transitions, rest);
      assert result.tokens == [w[..n]] + tail.tokens;
      ConcatCons(w[..n], tail.tokens);
      assert w[|Concat(result.tokens)|..] == rest[|Concat(tail.tokens)|..];
    } else {
      assert result.tokens == [];
      assert w[0..] == w;
    }
  }

  /** Concatenation of a token followed by more tokens. */
  lemma ConcatCons(token: string, tokens: seq<string>)
    ensures Concat([token] + tokens) == token + Concat(tokens)
  {
    assert ([token] + tokens)[1..] == tokens;
  }

  /** Every emitted token is the longest accepted prefix of what the tokens before it leave over. */
  lemma {:induction false} MunchMaximal(states: seq<string>, transitions: seq<Transition>, w: string)
    requires |states| > 0
    ensures IsMaximalMunch(states, transitions, w, Munch(states, transitions, w).tokens)
    decreases |w|
  {
    var result := Munch(states, transitions, w);
    if w != [] && Run(transitions, states[0], w).None? && Longest(states, transitions, w).Some? {
      var n := Longest(states, transitions, w).value;
      LongestUpToSpec(states, transitions, w, |w|);
      MunchMaximal(states, transitions, w[n..]);
      assert result.tokens == [w[..n]] + Munch(states, transitions, w[n..]).tokens;
      assert IsLongestAccepted(states, transitions, w, w[..n]);
    } else if w != [] && Run(transitions, states[0], w).Some? && IsAccepting(Run(transitions, states[0], w).value, states) {
      assert w[..|w|] == w;
      assert IsMaximalMunch(states, transitions, w[|w|..], []);
    }
  }

  /** A dead end on the first character of a token fails at once: the checkpoint is empty there. */
  lemma DeadEndAtTokenStart(states: seq<string>, transitions: seq<Transition>, w: string)
    requires |states| > 0 && w != []
    requires Lookup(transitions, states[0], w[0]) == None
    ensures Munch(states, transitions, w) == Tokenization([], false)
  {
    assert w[..0] == [];
    RunDeadEnd(transitions, states[0], w, 0);
    assert w[..|w|] == w;
    LongestCharacterized(states, transitions, w, 0);
  }

  /** Prefixes that are not accepted do not change the longest accepted one. */
  lemma {:induction false} LongestUpToUnchanged(states: seq<string>, transitions: seq<Transition>, w: string, lo: nat, hi: nat)
    requires |states| > 0 && lo <= hi <= |w|
    requires forall m :: lo < m <= hi ==> !AcceptsToken(states, transitions, w[..m])
    ensures LongestUpTo(states, transitions, w, hi) == LongestUpTo(states, transitions, w, lo)
    decreases hi - lo
  {
    if lo < hi {
      LongestUpToUnchanged(states, transitions, w, lo, hi - 1);
    }
  }

  /**
   * A dead end after `len` characters of `w`: the run of `w` fails, and the
   * longest accepted prefix of `w` is the longest one among the first `len`
   * characters.
   */
  lemma DeadEndLongest(states: seq<string>, transitions: seq<Transition>, w: string, len: nat)
    requires |states| > 0 && len < |w|
    requires Run(transitions, states[0], w[..len]).Some?
    requires Lookup(transitions, Run(transitions, states[0], w[..len]).value, w[len]) == None
    ensures Run(transitions, states[0], w) == None
    ensures Longest(states, transitions, w) == LongestUpTo(states, transitions, w, len)
  {
    RunDeadEnd(transitions, states[0], w, len);
    assert w[..|w|] == w;
    LongestUpToUnchanged(states, transitions, w, len, |w|);
  }

  /**
   * A dead end after `len` characters of `w`, none of whose prefixes up to
   * there is accepted: the tokenization of `w` fails at once.
   */
  lemma DeadEndFails(states: seq<string>, transitions: seq<Transition>, w: string, len: nat)
    requires |states| > 0 && len < |w|
    requires Run(transitions, states[0], w[..len]).Some?
    requires Lookup(transitions, Run(transitions, states[0], w[..len]).value, w[len]) == None
    requires LongestUpTo(states, transitions, w, len) == None
    ensures Munch(states, transitions, w) == Tokenization([], false)
  {
    DeadEndLongest(states, transitions, w, len);
  }

  /**
   * A dead end after `len` characters of `w`, whose longest accepted prefix
   * up to there has length `n`: that prefix is the next token, and the
   * tokenization continues just after it.
   */
  lemma DeadEndSplits(states: seq<string>, transitions: seq<Transition>, w: string, len: nat, n: nat)
    requires |states| > 0 && len < |w|
    requires Run(transitions, states[0], w[..len]).Some?
    requires Lookup(transitions, Run(transitions, states[0], w[..len]).value, w[len]) == None
    requires LongestUpTo(states, transitions, w, len) == Some(n)
    ensures n <= len
    ensures Munch(states, transitions, w) == Then([w[..n]], Munch(states, transitions, w[n..]))
  {
    DeadEndLongest(states, transitions, w, len);
  }

  /**
   * The tokenizer's scan of one token. `rest` is the input from where the
   * token began, `token` the text read of it so far, `current` the state
   * reached, and `checkpoint` the length of the last accepted prefix of the
   * token, whose text is `lastValidToken`.
   */
  ghost predicate Reading(states: seq<string>, transitions: seq<Transition>, rest: string, token: string,
                          current: string, checkpoint: Option<nat>, lastValidToken: string)
  {
    && |states| > 0
    && |token| <= |rest|
    && token == rest[..|token|]
    && Run(transitions, states[0], token) == Some(current)
    && LongestUpTo(states, transitions, rest, |token|) == checkpoint
    && (checkpoint.Some? ==> lastValidToken == rest[..checkpoint.value])
  }

  /**
   * The rest of the tokenizer's run, one loop iteration per call, with the
   * input given from where the current token began: consume the next
   * character, or at a dead end emit the checkpointed token and resume just
   * after it, or fail when there is no checkpoint; at the end of the buffer,
   * the final checks.
   */
  function Drive(states: seq<string>, transitions: seq<Transition>, rest: string, token: string,
                 current: string, checkpoint: Option<nat>, lastValidToken: string, tokens: seq<string>): Tokenization
    requires |states| > 0 && |token| <= |rest|
    requires checkpoint.Some? ==> 0 < checkpoint.value <= |token|
    decreases |rest|, |rest| - |token|
  {
    if |token| < |rest| then
      match Lookup(transitions, current, rest[|token|])
      case Some(next) =>
        var longer := token + [rest[|token|]];
        if IsAccepting(next, states) then
          Drive(states, transitions, rest, longer, next, Some(|longer|), longer, tokens)
        else
          Drive(states, transitions, rest, longer, next, checkpoint, lastValidToken, tokens)
      case None =>
        if checkpoint.Some? then
          Drive(states, transitions, rest[checkpoint.value..], "", states[0], None, lastValidToken, tokens + [lastValidToken])
        else
          Tokenization(tokens, false)
    else if |token| > 0 && !IsAccepting(current, states) then
      Tokenization(tokens, false)
    else if checkpoint.Some? && lastValidToken != "" then
      Tokenization(tokens + [lastValidToken], true)
    else
      Tokenization(tokens, true)
  }

  /**
   * Consuming one more character of `w` after `len`: the run extends by the
   * transition taken, and the longest accepted prefix becomes the whole of
   * what was read exactly when the new state is accepting.
   */
  lemma ScanStep(states: seq<string>, transitions: seq<Transition>, w: string, len: nat,
                 current: string, next: string)
    requires |states| > 0 && len < |w|
    requires Run(transitions, states[0], w[..len]) == Some(current)
    requires Lookup(transitions, current, w[len]) == Some(next)
    ensures Run(transitions, states[0], w[..len + 1]) == Some(next)
    ensures LongestUpTo(states, transitions, w, len + 1) ==
            if IsAccepting(next, states) then Some(len + 1) else LongestUpTo(states, transitions, w, len)
  {
    assert w[..len + 1] == w[..len] + [w[len]];
    RunSnoc(transitions, states[0], w[..len], w[len]);
    assert AcceptsToken(states, transitions, w[..len + 1]) == IsAccepting(next, states);
  }

  /** Consuming a character keeps the scan of the token consistent with the input, with the checkpoint moved when the new state accepts. */
  lemma ReadingConsumes(states: seq<string>, transitions: seq<Transition>, rest: string, token: string,
                        current: string, checkpoint: Option<nat>, lastValidToken: string, next: string)
    requires Reading(states, transitions, rest, token, current, checkpoint, lastValidToken)
    requires |token| < |rest| && Lookup(transitions, current, rest[|token|]) == Some(next)
    ensures var longer := token + [rest[|token|]];
            if IsAccepting(next, states) then Reading(states, transitions, rest, longer, next, Some(|longer|), longer)
            else Reading(states, transitions, rest, longer, next, checkpoint, lastValidToken)
  {
    ScanStep(states, transitions, rest, |token|, current, next);
    assert token + [rest[|token|]] == rest[..|token| + 1];
  }

  /** Starting a token: nothing read, no checkpoint. */
  lemma ReadingInitially(states: seq<string>, transitions: seq<Transition>, rest: string, lastValidToken: string)
    requires |states| > 0
    ensures Reading(states, transitions, rest, "", states[0], None, lastValidToken)
  {
    assert rest[..0] == "";
  }

  /**
   * Where `Reading` holds, the rest of the tokenizer's run emits the
   * tokenization of `rest` after the tokens already emitted.
   */
  lemma {:induction false} DriveMunch(states: seq<string>, transitions: seq<Transition>, rest: string, token: string,
                                      current: string, checkpoint: Option<nat>, lastValidToken: string, tokens: seq<string>)
    requires Reading(states, transitions, rest, token, current, checkpoint, lastValidToken)
    ensures checkpoint.Some? ==> 0 < checkpoint.value <= |token|
    ensures Drive(states, transitions, rest, token, current, checkpoint, lastValidToken, tokens) ==
            Then(tokens, Munch(states, transitions, rest))
    decreases |rest|, |rest| - |token|, 1
  {
    if |token| < |rest| {
      match Lookup(transitions, current, rest[|token|])
      case Some(next) =>
        DriveConsumes(states, transitions, rest, token, current, checkpoint, lastValidToken, tokens, next);
      case None =>
        if checkpoint.Some? {
          DriveEmits(states, transitions, rest, token, current, checkpoint.value, lastValidToken, tokens);
        } else {
          DeadEndFails(states, transitions, rest, |token|);
          assert tokens + [] == tokens;
        }
    } else {
      DriveEnds(states, transitions, rest, token, current, checkpoint, lastValidToken, tokens);
    }
  }

  /** `DriveMunch` when the next character is consumed. */
  lemma {:induction false} DriveConsumes(states: seq<string>, transitions: seq<Transition>, rest: string, token: string,
                                         current: string, checkpoint: Option<nat>, lastValidToken: string, tokens: seq<string>,
                                         next: string)
    requires Reading(states, transitions, rest, token, current, checkpoint, lastValidToken)
    requires |token| < |rest| && Lookup(transitions, current, rest[|token|]) == Some(next)
    ensures checkpoint.Some? ==> 0 < checkpoint.value <= |token|
    ensures Drive(states, transitions, rest, token, current, checkpoint, lastValidToken, tokens) ==
            Then(tokens, Munch(states, transitions, rest))
    decreases |rest|, |rest| - |token|, 0
  {
    ReadingConsumes(states, transitions, rest, token, current, checkpoint, lastValidToken, next);
    var longer := token + [rest[|token|]];
    if IsAccepting(next, states) {
      DriveMunch(states, transitions, rest, longer, next, Some(|longer|), longer, tokens);
    } else {
      DriveMunch(states, transitions, rest, longer, next, checkpoint, lastValidToken, tokens);
    }
  }

  /** `DriveMunch` at a dead end with a checkpoint of length `n`. */
  lemma {:induction false} DriveEmits(states: seq<string>, transitions: seq<Transition>, rest: string, token: string,
                                      current: string, n: nat, lastValidToken: string, tokens: seq<string>)
    requires Reading(states, transitions, rest, token, current, Some(n), lastValidToken)
    requires |token| < |rest| && Lookup(transitions, current, rest[|token|]) == None
    ensures 0 < n <= |token|
    ensures Drive(states, transitions, rest, token, current, Some(n), lastValidToken, tokens) ==
            Then(tokens, Munch(states, transitions, rest))
    decreases |rest|, |rest| - |token|, 0
  {
    DeadEndSplits(states, transitions, rest, |token|, n);
    ReadingInitially(states, transitions, rest[n..], lastValidToken);
    DriveMunch(states, transitions, rest[n..], "", states[0], None, lastValidToken, tokens + [lastValidToken]);
    ThenThen(tokens, [lastValidToken], Munch(states, transitions, rest[n..]));
  }

  /**
   * `DriveMunch` at the end of the buffer: a pending token that is not
   * accepting fails the whole run; otherwise the last checkpointed token,
   * if any, completes it.
   */
  lemma DriveEnds(states: seq<string>, transitions: seq<Transition>, rest: string, token: string,
                  current: string, checkpoint: Option<nat>, lastValidToken: string, tokens: seq<string>)
    requires Reading(states, transitions, rest, token, current, checkpoint, lastValidToken)
    requires |token| == |rest|
    ensures checkpoint.Some? ==> 0 < checkpoint.value <= |token|
    ensures Drive(states, transitions, rest, token, current, checkpoint, lastValidToken, tokens) ==
            Then(tokens, Munch(states, transitions, rest))
  {
    assert token == rest;
    if |token| == 0 {
      assert tokens + [] == tokens;
    } else if IsAccepting(current, states) {
      assert rest[..|rest|] == rest;
      assert LongestUpTo(states, transitions, rest, |rest|) == Some(|rest|);
    } else {
      assert tokens + [] == tokens;
    }
  }

  /** From the start of the buffer, the tokenizer's run is the maximal-munch tokenization. */
  lemma DriveFromStart(states: seq<string>, transitions: seq<Transition>, input: string)
    requires |states| > 0
    ensures Drive(states, transitions, input, "", states[0], None, "", []) == Munch(states, transitions, input)
  {
    ReadingInitially(states, transitions, input, "");
    DriveMunch(states, transitions, input, "", states[0], None, "", []);
    assert Then([], Munch(states, transitions, input)) == Munch(states, transitions, input);
  }

  /** The variables of the tokenizer's loop. */
  datatype Scan = Scan(index: nat, token: string, current: string,
                       lastAcceptingPos: Option<nat>, lastValidToken: string, tokens: seq<string>)

  /**
   * Loop variables the loop can go on from: `token` is the text just before
   * `index`, and the checkpoint, if any, lies within it.
   */
  predicate Fits(input: string, s: Scan)
  {
    && s.index <= |input|
    && |s.token| <= s.index
    && (s.lastAcceptingPos.Some? ==> s.index - |s.token| <= s.lastAcceptingPos.value < s.index)
  }

  /** The loop's checkpoint position as the length of the checkpointed token begun at `start`. */
  function Checkpoint(lastAcceptingPos: Option<nat>, start: nat): Option<nat>
    requires lastAcceptingPos.Some? ==> start <= lastAcceptingPos.value
  {
    match lastAcceptingPos
    case Some(pos) => Some(pos + 1 - start)
    case None => None
  }

  /** The rest of the run from loop variables `s`: `Drive` from where the current token began. */
  function Resume(states: seq<string>, transitions: seq<Transition>, input: string, s: Scan): Tokenization
    requires |states| > 0 && Fits(input, s)
  {
    var start := s.index - |s.token|;
    Drive(states, transitions, input[start..], s.token, s.current,
          Checkpoint(s.lastAcceptingPos, start), s.lastValidToken, s.tokens)
  }

  /** At a dead end with a checkpoint of length `n`, the run goes on from just after the checkpointed token. */
  lemma DriveRewinds(states: seq<string>, transitions: seq<Transition>, rest: string, token: string,
                     current: string, n: nat, lastValidToken: string, tokens: seq<string>)
    requires |states| > 0 && |token| < |rest| && 0 < n <= |token|
    requires Lookup(transitions, current, rest[|token|]) == None
    ensures Drive(states, transitions, rest, token, current, Some(n), lastValidToken, tokens) ==
            Drive(states, transitions, rest[n..], "", states[0], None, lastValidToken, tokens + [lastValidToken])
  {
  }

  /** A suffix of a suffix is a suffix. */
  lemma SuffixOfSuffix(s: string, i: nat, k: nat)
    requires i + k <= |s|
    ensures s[i..][k..] == s[i + k..]
  {
  }

  /** The loop's first branch: consuming a character leaves the rest of the run unchanged. */
  lemma ResumeConsumes(states: seq<string>, transitions: seq<Transition>, input: string, s: Scan, next: string)
    requires |states| > 0 && Fits(input, s)
    requires s.index < |input| && Lookup(transitions, s.current, input[s.index]) == Some(next)
    ensures var token := s.token + [input[s.index]];
            var after := if IsAccepting(next, states) then Scan(s.index + 1, token, next, Some(s.index), token, s.tokens)
                         else Scan(s.index + 1, token, next, s.lastAcceptingPos, s.lastValidToken, s.tokens);
            Fits(input, after) && Resume(states, transitions, input, after) == Resume(states, transitions, input, s)
  {
    var start := s.index - |s.token|;
    assert input[start..][|s.token|] == input[s.index];
  }

  /** A dead end with a checkpoint: emitting the checkpointed token and resuming after it leaves the rest of the run unchanged. */
  lemma ResumeEmits(states: seq<string>, transitions: seq<Transition>, input: string, s: Scan)
    requires |states| > 0 && Fits(input, s) && s.lastAcceptingPos.Some?
    requires s.index < |input| && Lookup(transitions, s.current, input[s.index]) == None
    ensures var pos := s.lastAcceptingPos.value;
            var after := Scan(pos + 1, "", states[0], None, s.lastValidToken, s.tokens + [s.lastValidToken]);
            Fits(input, after) && Resume(states, transitions, input, after) == Resume(states, transitions, input, s)
  {
    var start, pos := s.index - |s.token|, s.lastAcceptingPos.value;
    var rest, n := input[start..], pos + 1 - start;
    assert rest[|s.token|] == input[s.index];
    DriveRewinds(states, transitions, rest, s.token, s.current, n, s.lastValidToken, s.tokens);
    SuffixOfSuffix(input, start, n);
  }

  /** A dead end without a checkpoint: the run fails with the tokens emitted so far. */
  lemma ResumeAborts(states: seq<string>, transitions: seq<Transition>, input: string, s: Scan)
    requires |states| > 0 && Fits(input, s) && s.lastAcceptingPos.None?
    requires s.index < |input| && Lookup(transitions, s.current, input[s.index]) == None
    ensures Resume(states, transitions, input, s) == Tokenization(s.tokens, false)
  {
    var start := s.index - |s.token|;
    assert input[start..][|s.token|] == input[s.index];
  }

  /** The end of the buffer: the final checks decide the outcome. */
  lemma ResumeEnds(states: seq<string>, transitions: seq<Transition>, input: string, s: Scan)
    requires |states| > 0 && Fits(input, s) && s.index == |input|
    ensures Resume(states, transitions, input, s) ==
            if |s.token| > 0 && !IsAccepting(s.current, states) then Tokenization(s.tokens, false)
            else if s.lastAcceptingPos.Some? && s.lastValidToken != "" then Tokenization(s.tokens + [s.lastValidToken], true)
            else Tokenization(s.tokens, true)
  {
  }

  /**
   * What the loop variables hold of the input: `token` is the text from the
   * start of the current token up to `index`, and the checkpointed token is
   * the text from that start through `lastAcceptingPos`.
   */
  predicate ReadFrom(input: string, s: Scan)
    requires Fits(input, s)
  {
    && s.token == input[s.index - |s.token|..s.index]
    && (s.lastAcceptingPos.Some? ==> s.lastValidToken == input[s.index - |s.token|..s.lastAcceptingPos.value + 1])
  }

  /** The consume branch appends the character at `index` to the token, and a new checkpoint is the whole token. */
  lemma ReadFromConsumes(states: seq<string>, input: string, s: Scan, next: string)
    requires Fits(input, s) && ReadFrom(input, s) && s.index < |input|
    ensures var token := s.token + [input[s.index]];
            var after := if IsAccepting(next, states) then Scan(s.index + 1, token, next, Some(s.index), token, s.tokens)
                         else Scan(s.index + 1, token, next, s.lastAcceptingPos, s.lastValidToken, s.tokens);
            Fits(input, after) && ReadFrom(input, after)
  {
    var start := s.index - |s.token|;
    assert input[start..s.index + 1] == s.token + [input[s.index]];
  }

  /** The emit branch starts an empty token just after the checkpoint. */
  lemma ReadFromEmits(states: seq<string>, input: string, s: Scan)
    requires |states| > 0 && Fits(input, s) && s.lastAcceptingPos.Some?
    ensures var after := Scan(s.lastAcceptingPos.value + 1, "", states[0], None, s.lastValidToken, s.tokens + [s.lastValidToken]);
            Fits(input, after) && ReadFrom(input, after)
  {
  }

  /** Resuming from the loop's initial variables is the maximal-munch tokenization. */
  lemma ResumeFromStart(states: seq<string>, transitions: seq<Transition>, input: string)
    requires |states| > 0
    ensures Fits(input, Scan(0, "", states[0], None, "", []))
    ensures Resume(states, transitions, input, Scan(0, "", states[0], None, "", [])) == Munch(states, transitions, input)
  {
    DriveFromStart(states, transitions, input);
    assert input[0..] == input;
  }

  /**
   * The tokenizer. `index` scans the buffer; `token` holds the text since the
   * current token began; the checkpoint is `lastAcceptingPos` with
   * `lastValidToken`. Emitted tokens are appended to `tokens`, and they stay
   * emitted when the run fails.
   */
  method Tokenize(input: string, states: seq<string>, transitions: seq<Transition>)
    returns (tokens: seq<string>, ok: bool)
    requires |states| > 0
    ensures Tokenization(tokens, ok) == Munch(states, transitions, input)
  {
    var s := Scan(0, "", states[0], None, "", []);
    ResumeFromStart(states, transitions, input);
    ghost var expected := Munch(states, transitions, input);

    while s.index < |input|
      invariant Fits(input, s)
      invariant Resume(states, transitions, input, s) == expected
      invariant ReadFrom(input, s)
      decreases |input| - (s.index - |s.token|), |input| - s.index
    {
      var next := FindTransition(transitions, s.current, input[s.index]);
      if next.Some? {
        ResumeConsumes(states, transitions, input, s, next.value);
        ReadFromConsumes(states, input, s, next.value);
        var token := s.token + [input[s.index]];
        if IsAccepting(next.value, states) {
          s := Scan(s.index + 1, token, next.value, Some(s.index), token, s.tokens);
        } else {
          s := Scan(s.index + 1, token, next.value, s.lastAcceptingPos, s.lastValidToken, s.tokens);
        }
      } else if s.lastAcceptingPos.Some? {
        ResumeEmits(states, transitions, input, s);
        ReadFromEmits(states, input, s);
        s := Scan(s.lastAcceptingPos.value + 1, "", states[0], None, s.lastValidToken, s.tokens + [s.lastValidToken]);
      } else {
        ResumeAborts(states, transitions, input, s);
        return s.tokens, false;
      }
    }

    ResumeEnds(states, transitions, input, s);
    if |s.token| > 0 && !IsAccepting(s.current, states) {
      return s.tokens, false;
    }
    tokens := s.tokens;
    if s.lastAcceptingPos.Some? && s.lastValidToken != "" {
      tokens := tokens + [s.lastValidToken];
    }
    ok := true;
  }

  /** Emitting in two batches is emitting once. */
  lemma ThenThen(earlier: seq<string>, emitted: seq<string>, rest: Tokenization)
    ensures Then(earlier, Then(emitted, rest)) == Then(earlier + emitted, rest)
  {
    assert earlier + (emitted + rest.tokens) == (earlier + emitted) + rest.tokens;
  }

  /** Everything proved about `Munch`, gathered for one outcome. */
  lemma MunchOutcome(states: seq<string>, transitions: seq<Transition>, input: string, tokens: seq<string>, ok: bool)
    requires |states| > 0
    requires Tokenization(tokens, ok) == Munch(states, transitions, input)
    ensures IsMaximalMunch(states, transitions, input, tokens)
    ensures ok <==> Concat(tokens) == input
    ensures !ok ==> |Concat(tokens)| < |input| && FailsOn(states, transitions, input[|Concat(tokens)|..])
  {
    MunchCovers(states, transitions, input);
    MunchMaximal(states, transitions, input);
    if !ok {
      MunchFailure(states, transitions, input);
    }
  }

  // ---------------------------------------------------------------------
  // Scenarios
  // ---------------------------------------------------------------------

  /** A single-letter token automaton: `A a-z B` with `B` accepting; "aab" gives "a", "a", "b". */
  lemma SingleLetterTokens()
    ensures Munch(["A", "B!"], [Transition("A", ["a-z"], "B")], "aab") == Tokenization(["a", "a", "b"], true)
  {
    var states, ts := ["A", "B!"], [Transition("A", ["a-z"], "B")];
    assert ts[0].symbols[0] == "a-z";
    assert Matches("a-z", 'a') && Matches("a-z", 'b');
    assert Base("A") == "A" && Base("B") == "B" && "B" + "!" == "B!";
    assert Fires(ts[0], "A", 'a') && Fires(ts[0], "A", 'b');
    assert Lookup(ts, "A", 'a') == Some("B") && Lookup(ts, "A", 'b') == Some("B");
    assert Lookup(ts, "B", 'a') == None && Lookup(ts, "B", 'b') == None;
    assert IsAccepting("B", states);
    OneLetterThenDead(states, ts, "aab", 'a');
    OneLetterThenDead(states, ts, "ab", 'a');
    assert "aab"[1..] == "ab" && "ab"[1..] == "b" && "b"[1..] == [] && "aab"[..1] == "a" && "ab"[..1] == "a";
    assert Run(ts, "A", "b") == Some("B");
  }

  /** Helper for the scenarios: a one-letter accepted token followed by a dead end. */
  lemma OneLetterThenDead(states: seq<string>, ts: seq<Transition>, w: string, c: char)
    requires |states| > 0 && |w| >= 2 && w[0] == c
    requires Lookup(ts, states[0], c).Some? && IsAccepting(Lookup(ts, states[0], c).value, states)
    requires Lookup(ts, Lookup(ts, states[0], c).value, w[1]) == None
    ensures Munch(states, ts, w) == Then([w[..1]], Munch(states, ts, w[1..]))
  {
    assert w[..1] == [c];
    assert Run(ts, states[0], [c]) == Lookup(ts, states[0], c);
    assert LongestUpTo(states, ts, w, 1) == Some(1);
    DeadEndSplits(states, ts, w, 1, 1);
  }

  /**
   * Failure is fatal, not skip-and-continue: with words of lower-case letters,
   * "ab#cd" emits "ab", then fails at '#' and never reaches "cd".
   */
  lemma BacktrackThenAbort()
    ensures Munch(["S", "W!"], [Transition("S", ["a-z"], "W"), Transition("W", ["a-z"], "W")], "ab#cd")
            == Tokenization(["ab"], false)
  {
    var states, ts := ["S", "W!"], [Transition("S", ["a-z"], "W"), Transition("W", ["a-z"], "W")];
    var w := "ab#cd";
    assert ts[0].symbols[0] == "a-z" && ts[1].symbols[0] == "a-z";
    assert Matches("a-z", 'a') && Matches("a-z", 'b') && !Matches("a-z", '#');
    assert Base("S") == "S" && Base("W") == "W" && "W" + "!" == "W!";
    assert Fires(ts[0], "S", 'a') && Fires(ts[1], "W", 'b') && !Fires(ts[0], "W", 'b');
    assert Lookup(ts, "S", 'a') == Some("W") && Lookup(ts, "W", 'b') == Some("W");
    assert !Fires(ts[0], "W", '#') && !Fires(ts[1], "W", '#') && !Fires(ts[0], "S", '#') && !Fires(ts[1], "S", '#');
    assert Lookup(ts, "W", '#') == None && Lookup(ts, "S", '#') == None;
    assert IsAccepting("W", states);
    assert w[..2] == "ab" && "ab"[1..] == "b" && "b"[1..] == [];
    assert Run(ts, "S", w[..2]) == Some("W");
    assert LongestUpTo(states, ts, w, 2) == Some(2);
    DeadEndSplits(states, ts, w, 2, 2);
    assert w[2..] == "#cd" && "#cd"[0] == '#';
    DeadEndAtTokenStart(states, ts, "#cd");
  }

  /**
   * No backtracking at the end of the buffer: with `S a A`, `A b S` and `A`
   * accepting, "a" alone is a token, yet "ab" fails with nothing emitted.
   */
  lemma NoBacktrackAtEnd()
    ensures AcceptsToken(["S", "A!"], [Transition("S", ["a"], "A"), Transition("A", ["b"], "S")], "a")
    ensures Munch(["S", "A!"], [Transition("S", ["a"], "A"), Transition("A", ["b"], "S")], "ab")
            == Tokenization([], false)
  {
    var states, ts := ["S", "A!"], [Transition("S", ["a"], "A"), Transition("A", ["b"], "S")];
    assert ts[0].symbols[0] == "a" && ts[1].symbols[0] == "b";
    assert Matches("a", 'a') && Matches("b", 'b') && !Matches("a", 'b');
    assert Base("S") == "S" && Base("A") == "A" && "A" + "!" == "A!" && "S" + "!" == "S!";
    assert Fires(ts[0], "S", 'a') && Fires(ts[1], "A", 'b') && !Fires(ts[0], "A", 'b');
    assert Lookup(ts, "S", 'a') == Some("A") && Lookup(ts, "A", 'b') == Some("S");
    assert "a"[1..] == [] && "ab"[1..] == "b" && "b"[1..] == [];
    assert Run(ts, "S", "ab") == Some("S");
    assert "S!"[0] != "A!"[0] && |"S!"| != |"S"|;
    assert !IsAccepting("S", states);
    assert IsAccepting("A", states);
  }
}
