/** The strobe/acknowledge link as a state machine: host register accesses and device reactions
    in any order. The host offers `words` one after the other with fic_comm_send, or with
    fic_comm_send_fast, which does not wait for FACK to fall again. */
module Handshake {
  import opened Gpio
  import opened Subsequences

  datatype Protocol = Full | Fast

  /** Where the host is inside one send. */
  datatype Pc = Clear | Raise | AwaitUp | Drop | AwaitDown | Failed

  /** `next` words have been offered and their sends have returned; `stale` records, for each
      rise of RSTB, whether FACK was still up from the word before; `gaveUp` says that a
      check timed out on the fast path, which goes on regardless and reports it at the end. */
  datatype State = State(next: nat, pc: Pc, rstb: bool, bus: Pins, fack: bool, got: seq<Pins>,
                         stale: seq<bool>, gaveUp: bool)

  ghost predicate Init(s: State) {
    s == State(0, Clear, false, {}, false, [], [], false)
  }

  /** One host access. A register write of fic_comm_send may fail its read-back check, which
      ends the send; on the fast path only the first write is checked, and the send goes on. */
  ghost predicate HostStep(p: Protocol, words: seq<Pins>, s: State, t: State) {
    match s.pc
    case Clear =>
      var u := s.(pc := Raise, rstb := false, bus := {});
      s.next < |words| && (t == u || t == if p == Full then u.(pc := Failed) else u.(gaveUp := true))
    case Raise =>
      s.next < |words| &&
      var u := s.(pc := AwaitUp, rstb := true, bus := s.bus + words[s.next], stale := s.stale + [s.fack]);
      t == u || (p == Full && t == u.(pc := Failed))
    case AwaitUp =>
      if s.fack then t == s.(pc := Drop)
      else if p == Full then t == s.(pc := Failed)
      else t == s.(pc := Drop, gaveUp := true)
    case Drop =>
      if p == Full then t == s.(pc := AwaitDown, rstb := false) || t == s.(pc := Failed, rstb := false)
      else t == s.(pc := Clear, rstb := false, next := s.next + 1)
    case AwaitDown =>
      if s.fack then t == s.(pc := Failed)
      else t == s.(pc := Clear, next := s.next + 1)
    case Failed =>
      false
  }

  /** With FACK down and RSTB up the device takes the bus and raises FACK; with FACK up and
      RSTB down it lowers FACK. */
  ghost predicate DeviceStep(s: State, t: State) {
    || (!s.fack && s.rstb && t == s.(fack := true, got := s.got + [s.bus]))
    || (s.fack && !s.rstb && t == s.(fack := false))
  }

  ghost predicate Step(p: Protocol, words: seq<Pins>, s: State, t: State) {
    HostStep(p, words, s, t) || DeviceStep(s, t) || s == t
  }

  ghost predicate Run(p: Protocol, words: seq<Pins>, run: seq<State>) {
    && |run| > 0 && Init(run[0])
    && forall i :: 0 <= i < |run| - 1 ==> Step(p, words, run[i], run[i + 1])
  }

  // ----- fic_comm_send -----

  ghost predicate FullInv(words: seq<Pins>, s: State) {
    var w := words;
    && s.next <= |w|
    && (s.pc == Raise || s.pc == AwaitUp || s.pc == Drop || s.pc == AwaitDown || s.pc == Failed ==> s.next < |w|)
    && match s.pc
       case Clear => !s.rstb && !s.fack && s.got == w[..s.next]
       case Raise => !s.rstb && !s.fack && s.bus == {} && s.got == w[..s.next]
       case AwaitUp => s.rstb && s.bus == w[s.next] && s.got == w[..if s.fack then s.next + 1 else s.next]
       case Drop => s.rstb && s.fack && s.got == w[..s.next + 1]
       case AwaitDown => !s.rstb && s.got == w[..s.next + 1]
       case Failed => if s.rstb then s.bus == w[s.next] && s.got == w[..if s.fack then s.next + 1 else s.next]
                      else s.got == w[..s.next] || s.got == w[..s.next + 1]
  }

  lemma FullStep(words: seq<Pins>, s: State, t: State)
    requires FullInv(words, s) && Step(Full, words, s, t)
    ensures FullInv(words, t)
  {
    if DeviceStep(s, t) && s.rstb {
      assert words[..s.next] + [words[s.next]] == words[..s.next + 1];
    }
  }

  lemma {:induction false} FullReaches(words: seq<Pins>, run: seq<State>)
    requires Run(Full, words, run)
    ensures FullInv(words, run[|run| - 1])
  {
    var n := |run| - 1;
    if n > 0 {
      FullReaches(words, run[..n]);
      FullStep(words, run[n - 1], run[n]);
    }
  }

  /** Under every interleaving: what the device has taken is a prefix of what was offered and
      at most one word ahead of the sends that have returned; and when a send has returned,
      exactly the words sent so far have been taken, each once and as they were put on the bus. */
  lemma FullDelivers(words: seq<Pins>, run: seq<State>)
    requires Run(Full, words, run)
    ensures var s := run[|run| - 1];
            && s.got <= words
            && s.next <= |s.got| <= s.next + 1
            && (s.pc == Clear ==> s.got == words[..s.next])
  {
    FullReaches(words, run);
  }

  // ----- fic_comm_send_fast -----

  /** The words whose strobe rose while FACK was down. */
  function Caught(words: seq<Pins>, stale: seq<bool>): (k: seq<Pins>)
    requires |stale| <= |words|
    ensures |k| <= |stale|
  {
    if stale == [] then []
    else
      var n := |stale| - 1;
      Caught(words, stale[..n]) + if stale[n] then [] else [words[n]]
  }

  ghost predicate FastInv(words: seq<Pins>, s: State) {
    var n := s.next;
    && n <= |words|
    && (s.pc != Clear ==> n < |words|)
    && match s.pc
       case Clear => |s.stale| == n && !s.rstb && s.got == Caught(words, s.stale)
       case Raise => |s.stale| == n && !s.rstb && s.bus == {} && s.got == Caught(words, s.stale)
       case AwaitUp =>
         && |s.stale| == n + 1 && s.rstb && s.bus == words[n]
         && (s.stale[n] ==> s.fack)
         && s.got == Caught(words, if s.fack then s.stale else s.stale[..n])
       case Drop => |s.stale| == n + 1 && s.rstb && s.fack && s.got == Caught(words, s.stale)
       case _ => false
  }

  lemma FastStep(words: seq<Pins>, s: State, t: State)
    requires FastInv(words, s) && Step(Fast, words, s, t) && !t.gaveUp
    ensures FastInv(words, t)
  {
    if HostStep(Fast, words, s, t) && s.pc == Raise {
      assert t.stale[..s.next] == s.stale;
    }
  }

  lemma {:induction false} FastReaches(words: seq<Pins>, run: seq<State>)
    requires Run(Fast, words, run) && !run[|run| - 1].gaveUp
    ensures FastInv(words, run[|run| - 1])
  {
    var n := |run| - 1;
    if n > 0 {
      FastReaches(words, run[..n]);
      FastStep(words, run[n - 1], run[n]);
    }
  }

  lemma {:induction false} KeptAll(words: seq<Pins>, stale: seq<bool>)
    requires |stale| <= |words|
    ensures Caught(words, stale) == words[..|stale|] <==> true !in stale
    ensures |Caught(words, stale)| == |stale| <==> true !in stale
  {
    if stale != [] {
      var n := |stale| - 1;
      KeptAll(words, stale[..n]);
      assert stale == stale[..n] + [stale[n]];
      assert words[..|stale|] == words[..n] + [words[n]];
    }
  }

  /** Without a time-out the device takes exactly the words whose strobe found FACK down. So
      fic_comm_send_fast delivers what fic_comm_send delivers if and only if the device lowers
      FACK before every next rise of RSTB. */
  lemma FastDelivers(words: seq<Pins>, run: seq<State>)
    requires Run(Fast, words, run)
    ensures var s := run[|run| - 1];
            !s.gaveUp && s.pc == Clear ==>
              && |s.stale| == s.next <= |words|
              && s.got == Caught(words, s.stale)
              && (s.got == words[..s.next] <==> true !in s.stale)
  {
    var s := run[|run| - 1];
    if !s.gaveUp && s.pc == Clear {
      FastReaches(words, run);
      KeptAll(words, s.stale);
    }
  }

  /** Holds in every fast run, time-outs included. */
  ghost predicate FastLossInv(words: seq<Pins>, s: State) {
    var n := s.next;
    && n <= |words|
    && (s.pc != Clear ==> n < |words|)
    && match s.pc
       case Clear => !s.rstb && Subsequence(s.got, words[..n])
       case Raise => !s.rstb && s.bus == {} && Subsequence(s.got, words[..n])
       case AwaitUp => s.rstb && s.bus == words[n] && Subsequence(s.got, words[..if s.fack then n + 1 else n])
       case Drop => s.rstb && s.bus == words[n] && Subsequence(s.got, words[..if s.fack then n + 1 else n])
       case _ => false
  }

  lemma FastLossHost(words: seq<Pins>, s: State, t: State)
    requires FastLossInv(words, s) && HostStep(Fast, words, s, t)
    ensures FastLossInv(words, t)
  {
    assert words[..s.next + 1] == words[..s.next] + [words[s.next]];
    if s.pc == Raise {
      OneMoreOffered(s.got, words[..s.next], words[s.next]);
      assert {} + words[s.next] == words[s.next];
    } else if s.pc == Drop && !s.fack {
      OneMoreOffered(s.got, words[..s.next], words[s.next]);
    }
  }

  lemma FastLossDevice(words: seq<Pins>, s: State, t: State)
    requires FastLossInv(words, s) && DeviceStep(s, t)
    ensures FastLossInv(words, t)
  {
    if s.rstb {
      assert words[..s.next + 1] == words[..s.next] + [words[s.next]];
      OneMoreOffered(s.got, words[..s.next], words[s.next]);
    }
  }

  lemma {:induction false} FastLossReaches(words: seq<Pins>, run: seq<State>)
    requires Run(Fast, words, run)
    ensures FastLossInv(words, run[|run| - 1])
  {
    var n := |run| - 1;
    if n > 0 {
      FastLossReaches(words, run[..n]);
      if HostStep(Fast, words, run[n - 1], run[n]) {
        FastLossHost(words, run[n - 1], run[n]);
      } else if DeviceStep(run[n - 1], run[n]) {
        FastLossDevice(words, run[n - 1], run[n]);
      }
    }
  }

  /** Whatever times out and however slow the device is, fic_comm_send_fast may lose words but
      never doubles, reorders or garbles one, and loses none exactly when the counts agree. */
  lemma FastOnlyLoses(words: seq<Pins>, run: seq<State>)
    requires Run(Fast, words, run)
    ensures var s := run[|run| - 1];
            s.pc == Clear ==>
              && s.next <= |words|
              && Subsequence(s.got, words[..s.next])
              && (|s.got| == s.next <==> s.got == words[..s.next])
  {
    var s := run[|run| - 1];
    FastLossReaches(words, run);
    if s.pc == Clear {
      FullLength(s.got, words[..s.next]);
    }
  }

  /** A run and one more step. */
  lemma Then(p: Protocol, words: seq<Pins>, run: seq<State>, t: State) returns (longer: seq<State>)
    requires Run(p, words, run) && Step(p, words, run[|run| - 1], t)
    ensures Run(p, words, longer) && longer[|longer| - 1] == t
  {
    longer := run + [t];
  }

  /** The first word of two is delivered, but FACK stays up. */
  lemma FirstOfTwo(a: Pins, b: Pins) returns (run: seq<State>)
    ensures Run(Fast, [a, b], run)
    ensures run[|run| - 1] == State(1, Clear, false, a, true, [a], [false], false)
  {
    var w, s0 := [a, b], State(0, Clear, false, {}, false, [], [], false);
    var s1 := s0.(pc := Raise);
    var s2 := State(0, AwaitUp, true, a, false, [], [false], false);
    var s3 := s2.(fack := true, got := [a]);
    assert {} + a == a && HostStep(Fast, w, s0, s1) && HostStep(Fast, w, s1, s2) && DeviceStep(s2, s3);
    run := Then(Fast, w, [s0], s1);
    run := Then(Fast, w, run, s2);
    run := Then(Fast, w, run, s3);
    run := Then(Fast, w, run, s3.(pc := Drop));
    run := Then(Fast, w, run, State(1, Clear, false, a, true, [a], [false], false));
  }

  /** A device that is slow to lower FACK loses words without any error: two words offered, no
      time-out, one word taken. */
  lemma FastMayLose(a: Pins, b: Pins) returns (run: seq<State>)
    ensures Run(Fast, [a, b], run)
    ensures var s := run[|run| - 1]; s.pc == Clear && s.next == 2 && !s.gaveUp && s.got == [a]
  {
    run := FirstOfTwo(a, b);
    var w, s0 := [a, b], run[|run| - 1];
    var s1 := s0.(pc := Raise, bus := {});
    var s2 := State(1, AwaitUp, true, b, true, [a], [false, true], false);
    assert {} + b == b && HostStep(Fast, w, s0, s1) && HostStep(Fast, w, s1, s2);
    run := Then(Fast, w, run, s1);
    run := Then(Fast, w, run, s2);
    run := Then(Fast, w, run, s2.(pc := Drop));
    run := Then(Fast, w, run, State(2, Clear, false, b, true, [a], [false, true], false));
  }

  // ----- Progress -----

  /** One checked send that nothing disturbs. */
  lemma SendCompletes(words: seq<Pins>, run: seq<State>) returns (longer: seq<State>)
    requires Run(Full, words, run)
    requires var s := run[|run| - 1]; s.pc == Clear && !s.fack && s.next < |words|
    ensures Run(Full, words, longer)
    ensures var s, t := run[|run| - 1], longer[|longer| - 1]; t.pc == Clear && !t.fack && t.next == s.next + 1
  {
    var s0 := run[|run| - 1];
    var s1 := s0.(pc := Raise, rstb := false, bus := {});
    var s2 := s1.(pc := AwaitUp, rstb := true, bus := s1.bus + words[s1.next], stale := s1.stale + [s1.fack]);
    var s3 := s2.(fack := true, got := s2.got + [s2.bus]);
    var s4 := s3.(pc := Drop);
    var s5 := s4.(pc := AwaitDown, rstb := false);
    var s6 := s5.(fack := false);
    longer := Then(Full, words, run, s1);
    longer := Then(Full, words, longer, s2);
    longer := Then(Full, words, longer, s3);
    longer := Then(Full, words, longer, s4);
    longer := Then(Full, words, longer, s5);
    longer := Then(Full, words, longer, s6);
    longer := Then(Full, words, longer, s6.(pc := Clear, next := s6.next + 1));
  }

  /** Any words can be sent: some run offers all of them and ends with each taken once. */
  lemma FullCompletes(words: seq<Pins>) returns (run: seq<State>)
    ensures Run(Full, words, run)
    ensures var s := run[|run| - 1]; s.pc == Clear && s.next == |words| && s.got == words
  {
    run := FirstSent(words, |words|);
    FullDelivers(words, run);
  }

  lemma {:induction false} FirstSent(words: seq<Pins>, n: nat) returns (run: seq<State>)
    requires n <= |words|
    ensures Run(Full, words, run)
    ensures var s := run[|run| - 1]; s.pc == Clear && !s.fack && s.next == n
  {
    if n == 0 {
      run := [State(0, Clear, false, {}, false, [], [], false)];
    } else {
      run := FirstSent(words, n - 1);
      run := SendCompletes(words, run);
    }
  }
}
