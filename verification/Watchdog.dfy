/** The receive loop of NtripClient::ThreadHandler: it reports a GGA sentence each interval
    and gives up after three reports without an answer. */
module Watchdog {
  import opened Text
  import Gga

  const BUFFER_SIZE := 4096
  const PERIOD := 3

  /** What `recv` returns: end of stream, an error, or a payload. */
  datatype Receipt = EndOfStream | Error(fatal: bool) | Payload(text: string)

  /** One pass of the loop: whether the service still runs, what is received, the two readings
      of the clock in milliseconds, the second one for the new interval, the sentence that the
      application sets by then, if it does, and the body of one made for the position. */
  datatype Pass = Pass(running: bool, receipt: Receipt, now: int, restart: int, update: Option<string>, body: string)

  /** A payload handed to the application, or a sentence sent to the caster. */
  datatype Mark = Received(text: string) | Reported(sentence: string)

  /** The loop's variables, receive_timeout_cnt, tp_beg, gga_buffer_ and gga_is_update_, and
      what happened, in order. */
  datatype Watch = Watch(counter: int, begun: int, gga: string, ggaIsSet: bool, log: seq<Mark>, done: bool)

  function Start(now: int, gga: string, ggaIsSet: bool): Watch {
    Watch(PERIOD, now, gga, ggaIsSet, [], false)
  }

  function Exit(w: Watch): Watch {
    w.(done := true)
  }

  function Update(w: Watch, p: Pass): Watch {
    if p.update.Some? then w.(gga := p.update.value, ggaIsSet := true) else w
  }

  function Report(w: Watch, p: Pass): Watch {
    var gga := if w.ggaIsSet then w.gga else Gga.Sentence(p.body);
    w.(begun := p.restart, gga := gga, log := w.log + [Reported(gga)])
  }

  /** The interval check at the end of a pass. */
  function Check(w: Watch, p: Pass, interval: int): Watch {
    if p.now - w.begun >= interval then
      var w1 := w.(counter := w.counter - 1);
      if w.counter <= 0 then Exit(w1) else Report(w1, p)
    else w
  }

  function Tick(w: Watch, p: Pass, interval: int): Watch {
    if w.done then w
    else
      var w1 := Update(w, p);
      if !p.running then Exit(w1)
      else
        match p.receipt
        case EndOfStream => Exit(w1)
        case Error(fatal) => if fatal then Exit(w1) else Check(w1, p, interval)
        case Payload(text) =>
          var w2 := w1.(counter := PERIOD, log := w1.log + [Received(text)]);
          if |text| == BUFFER_SIZE then w2 else Check(w2, p, interval)
  }

  function Watched(w: Watch, passes: seq<Pass>, interval: int): Watch {
    if passes == [] then w
    else Tick(Watched(w, passes[..|passes| - 1], interval), passes[|passes| - 1], interval)
  }

  /** The payloads handed over, and the sentences sent. */
  function Texts(log: seq<Mark>): seq<string> {
    if log == [] then []
    else Texts(log[..|log| - 1]) + match log[|log| - 1] case Received(t) => [t] case Reported(_) => []
  }

  function Sentences(log: seq<Mark>): seq<string> {
    if log == [] then []
    else Sentences(log[..|log| - 1]) + match log[|log| - 1] case Received(_) => [] case Reported(t) => [t]
  }

  /** The reports since the last received payload, or since the loop was entered. */
  function SilentReports(log: seq<Mark>): nat {
    if log == [] || log[|log| - 1].Received? then 0
    else 1 + SilentReports(log[..|log| - 1])
  }

  lemma EmptyLog(log: seq<Mark>)
    ensures Texts([]) == [] && Sentences([]) == [] && log + [] == log
  {
  }

  lemma LogAfter(log: seq<Mark>, t: string)
    ensures Texts(log + [Received(t)]) == Texts(log) + [t] && Texts(log + [Reported(t)]) == Texts(log)
    ensures Sentences(log + [Reported(t)]) == Sentences(log) + [t] && Sentences(log + [Received(t)]) == Sentences(log)
  {
    assert (log + [Received(t)])[..|log|] == log;
    assert (log + [Reported(t)])[..|log|] == log;
  }

  lemma {:induction false} LogConcat(log: seq<Mark>, marks: seq<Mark>)
    ensures Texts(log + marks) == Texts(log) + Texts(marks)
    ensures Sentences(log + marks) == Sentences(log) + Sentences(marks)
    decreases |marks|
  {
    hide Texts, Sentences;
    if marks == [] {
      EmptyLog(log);
      assert log + marks == log;
    } else {
      var before, last := marks[..|marks| - 1], marks[|marks| - 1];
      LogConcat(log, before);
      assert marks == before + [last] && log + marks == (log + before) + [last];
      var t := if last.Received? then last.text else last.sentence;
      LogAfter(before, t);
      LogAfter(log + before, t);
    }
  }

  lemma Nothing(w0: Watch, passes: seq<Pass>, interval: int)
    ensures Watched(w0, passes[..0], interval) == w0
  {
  }

  lemma WatchedStep(w0: Watch, passes: seq<Pass>, i: nat, interval: int)
    requires i < |passes|
    ensures Watched(w0, passes[..i + 1], interval) == Tick(Watched(w0, passes[..i], interval), passes[i], interval)
  {
    assert passes[..i + 1][..i] == passes[..i];
  }

  /** A loop that has ended stays as it is. */
  lemma {:induction false} DoneStays(w0: Watch, passes: seq<Pass>, i: nat, interval: int)
    requires i <= |passes| && Watched(w0, passes[..i], interval).done
    ensures Watched(w0, passes, interval) == Watched(w0, passes[..i], interval)
    decreases |passes|
  {
    if i < |passes| {
      assert passes[..|passes| - 1][..i] == passes[..i];
      DoneStays(w0, passes[..|passes| - 1], i, interval);
    } else {
      assert passes[..i] == passes;
    }
  }

  // ---------- every run ----------

  lemma ReportsAfter(log: seq<Mark>, t: string)
    ensures SilentReports(log + [Received(t)]) == 0
    ensures SilentReports(log + [Reported(t)]) == SilentReports(log) + 1
  {
    assert (log + [Reported(t)])[..|log|] == log;
  }

  /** The counter is three minus the reports made in silence, and it never lets a fourth
      one out. */
  ghost predicate Counts(w: Watch) {
    && SilentReports(w.log) <= 3
    && (!w.done ==> w.counter == 3 - SilentReports(w.log))
  }

  lemma TickCounts(w: Watch, p: Pass, interval: int)
    requires Counts(w)
    ensures Counts(Tick(w, p, interval))
  {
    hide SilentReports, Gga.Sentence;
    var w1 := Update(w, p);
    var log := if p.receipt.Payload? then w1.log + [Received(p.receipt.text)] else w1.log;
    if p.receipt.Payload? {
      ReportsAfter(w1.log, p.receipt.text);
    }
    ReportsAfter(log, if w1.ggaIsSet then w1.gga else Gga.Sentence(p.body));
  }

  lemma StartCounts(start: int, gga: string, ggaIsSet: bool)
    ensures Counts(Start(start, gga, ggaIsSet))
  {
  }

  /** In every run of the loop. */
  lemma {:induction false} AlwaysCounts(start: int, gga: string, ggaIsSet: bool, passes: seq<Pass>, interval: int)
    ensures var w := Watched(Start(start, gga, ggaIsSet), passes, interval);
            Counts(w) && SilentReports(w.log) <= 3 && (!w.done ==> w.counter == 3 - SilentReports(w.log))
  {
    hide Tick, SilentReports;
    if passes == [] {
      StartCounts(start, gga, ggaIsSet);
    } else {
      var before, w0 := passes[..|passes| - 1], Start(start, gga, ggaIsSet);
      AlwaysCounts(start, gga, ggaIsSet, before, interval);
      TickCounts(Watched(w0, before, interval), passes[|passes| - 1], interval);
    }
  }

  /** A pass without a payload ends a running loop by its interval check exactly when the
      interval has expired and three reports have gone unanswered: the fourth expiry. */
  lemma FourthExpiryExits(start: int, gga: string, ggaIsSet: bool, passes: seq<Pass>, p: Pass, interval: int)
    requires p.running && p.receipt == Error(false)
    requires !Watched(Start(start, gga, ggaIsSet), passes, interval).done
    ensures var w := Watched(Start(start, gga, ggaIsSet), passes, interval);
            Tick(w, p, interval).done <==> p.now - w.begun >= interval && SilentReports(w.log) == 3
  {
    hide SilentReports, Watched;
    AlwaysCounts(start, gga, ggaIsSet, passes, interval);
  }

  /** What is reported: a sentence the application has set once it has set one, and before
      that one made for the position, whose checksum is right. */
  ghost predicate SoundReport(t: string, w0: Watch, passes: seq<Pass>) {
    || (w0.ggaIsSet && t == w0.gga)
    || (exists i | 0 <= i < |passes| :: passes[i].update == Some(t))
    || (Gga.HasStar(t) && Gga.Compare(t) == 0)
  }

  ghost predicate SoundReports(w: Watch, w0: Watch, passes: seq<Pass>) {
    && (w.ggaIsSet ==> SoundReport(w.gga, w0, passes))
    && forall k | 0 <= k < |w.log| && w.log[k].Reported? :: SoundReport(w.log[k].sentence, w0, passes)
  }

  lemma MorePasses(t: string, w0: Watch, passes: seq<Pass>, p: Pass)
    requires SoundReport(t, w0, passes)
    ensures SoundReport(t, w0, passes + [p])
  {
    hide Gga.HasStar, Gga.Compare;
    if i :| 0 <= i < |passes| && passes[i].update == Some(t) {
      assert (passes + [p])[i] == passes[i];
    }
  }

  lemma NewSentence(w0: Watch, passes: seq<Pass>, p: Pass)
    requires Gga.IsBody(p.body)
    ensures SoundReport(Gga.Sentence(p.body), w0, passes + [p])
  {
    Gga.FrameCompares(p.body, Gga.Checksum(p.body));
  }

  lemma NewUpdate(w0: Watch, passes: seq<Pass>, p: Pass)
    requires p.update.Some?
    ensures SoundReport(p.update.value, w0, passes + [p])
  {
    hide Gga.HasStar, Gga.Compare;
    assert (passes + [p])[|passes|].update == Some(p.update.value);
  }

  lemma TickReports(w: Watch, w0: Watch, passes: seq<Pass>, p: Pass, interval: int)
    requires SoundReports(w, w0, passes) && Gga.IsBody(p.body)
    ensures SoundReports(Tick(w, p, interval), w0, passes + [p])
  {
    hide SoundReport, Gga.Sentence, Gga.IsBody;
    forall t | SoundReport(t, w0, passes)
      ensures SoundReport(t, w0, passes + [p])
    {
      MorePasses(t, w0, passes, p);
    }
    NewSentence(w0, passes, p);
    if p.update.Some? {
      NewUpdate(w0, passes, p);
    }
  }

  lemma FirstSentence(w0: Watch)
    ensures w0.ggaIsSet ==> SoundReport(w0.gga, w0, [])
  {
  }

  lemma {:induction false} AlwaysSoundReports(w0: Watch, passes: seq<Pass>, interval: int)
    requires w0.log == [] && forall i | 0 <= i < |passes| :: Gga.IsBody(passes[i].body)
    ensures SoundReports(Watched(w0, passes, interval), w0, passes)
  {
    hide Tick, SoundReport, Gga.IsBody;
    if passes == [] {
      assert w0.ggaIsSet ==> SoundReport(w0.gga, w0, []) by { FirstSentence(w0); }
    } else {
      var before, p := passes[..|passes| - 1], passes[|passes| - 1];
      AlwaysSoundReports(w0, before, interval);
      TickReports(Watched(w0, before, interval), w0, before, p, interval);
      assert before + [p] == passes;
    }
  }

  // ---------- what one pass does ----------

  /** Pass `i` sends a report. */
  ghost predicate ReportsIn(w0: Watch, passes: seq<Pass>, i: nat, interval: int)
    requires i < |passes|
  {
    var before, after := Watched(w0, passes[..i], interval).log, Watched(w0, passes[..i + 1], interval).log;
    |after| > |before| && after[|after| - 1].Reported?
  }

  /** `t` is the clock at the last report, or at the start if there was none. */
  ghost predicate LastReport(w0: Watch, passes: seq<Pass>, interval: int, t: int) {
    || (t == w0.begun && forall i | 0 <= i < |passes| :: !ReportsIn(w0, passes, i, interval))
    || (exists i | 0 <= i < |passes| :: ReportsIn(w0, passes, i, interval) && t == passes[i].restart
          && forall k | i < k < |passes| :: !ReportsIn(w0, passes, k, interval))
  }

  /** The sentence the application has set last, if it has set one. */
  function LastUpdate(gga: string, ggaIsSet: bool, passes: seq<Pass>): Option<string> {
    if passes == [] then (if ggaIsSet then Some(gga) else None)
    else if passes[|passes| - 1].update.Some? then passes[|passes| - 1].update
    else LastUpdate(gga, ggaIsSet, passes[..|passes| - 1])
  }

  lemma ReportsInPrefix(w0: Watch, passes: seq<Pass>, p: Pass, interval: int, i: nat)
    requires i < |passes|
    ensures ReportsIn(w0, passes + [p], i, interval) <==> ReportsIn(w0, passes, i, interval)
  {
    hide Watched;
    assert (passes + [p])[..i] == passes[..i] && (passes + [p])[..i + 1] == passes[..i + 1];
  }

  lemma ReportsInLast(w0: Watch, passes: seq<Pass>, p: Pass, interval: int)
    ensures var w := Watched(w0, passes, interval);
            ReportsIn(w0, passes + [p], |passes|, interval) <==>
              |Tick(w, p, interval).log| > |w.log| && Tick(w, p, interval).log[|Tick(w, p, interval).log| - 1].Reported?
  {
    hide Tick;
    var all := passes + [p];
    assert all[..|passes|] == passes && all[..|passes| + 1] == all && all[..|all| - 1] == passes;
  }

  lemma OnePass(w0: Watch, passes: seq<Pass>, p: Pass, interval: int)
    ensures Watched(w0, passes + [p], interval) == Tick(Watched(w0, passes, interval), p, interval)
  {
    hide Tick;
    assert (passes + [p])[..|passes + [p]| - 1] == passes;
  }

  /** A pass that reports restarts the interval, no other does. */
  lemma TickBegins(w: Watch, p: Pass, interval: int)
    ensures var w' := Tick(w, p, interval);
            w'.begun == if |w'.log| > |w.log| && w'.log[|w'.log| - 1].Reported? then p.restart else w.begun
  {
    hide Gga.Sentence;
  }

  lemma LastReportStep(w0: Watch, passes: seq<Pass>, p: Pass, interval: int, t: int)
    requires LastReport(w0, passes, interval, t)
    ensures LastReport(w0, passes + [p], interval,
                       if ReportsIn(w0, passes + [p], |passes|, interval) then p.restart else t)
  {
    hide ReportsIn;
    var all := passes + [p];
    forall i | 0 <= i < |passes|
      ensures ReportsIn(w0, all, i, interval) <==> ReportsIn(w0, passes, i, interval)
    {
      ReportsInPrefix(w0, passes, p, interval, i);
    }
    assert all[|passes|] == p;
    if i :| 0 <= i < |passes| && ReportsIn(w0, passes, i, interval) && t == passes[i].restart
            && forall k | i < k < |passes| :: !ReportsIn(w0, passes, k, interval) {
      assert all[i] == passes[i] && ReportsIn(w0, all, i, interval);
    }
  }

  lemma NoReportYet(w0: Watch, interval: int)
    ensures LastReport(w0, [], interval, w0.begun)
  {
  }

  lemma {:induction false} BegunIsLastReport(w0: Watch, passes: seq<Pass>, interval: int)
    ensures LastReport(w0, passes, interval, Watched(w0, passes, interval).begun)
  {
    hide Tick, ReportsIn, LastReport;
    if passes == [] {
      NoReportYet(w0, interval);
    } else {
      var before, p := passes[..|passes| - 1], passes[|passes| - 1];
      assert before + [p] == passes;
      BegunIsLastReport(w0, before, interval);
      LastReportStep(w0, before, p, interval, Watched(w0, before, interval).begun);
      ReportsInLast(w0, before, p, interval);
      TickBegins(Watched(w0, before, interval), p, interval);
    }
  }

  lemma OnlyLastReport(w0: Watch, passes: seq<Pass>, interval: int, t: int, u: int)
    requires LastReport(w0, passes, interval, t) && LastReport(w0, passes, interval, u)
    ensures t == u
  {
    hide ReportsIn;
    if i :| 0 <= i < |passes| && ReportsIn(w0, passes, i, interval) && t == passes[i].restart
            && forall k | i < k < |passes| :: !ReportsIn(w0, passes, k, interval) {
      if j :| 0 <= j < |passes| && ReportsIn(w0, passes, j, interval) && u == passes[j].restart
              && forall k | j < k < |passes| :: !ReportsIn(w0, passes, k, interval) {
        assert i == j;
      }
    }
  }

  /** While the loop runs, its sentence is the one set last. */
  lemma {:induction false} SentenceIsLastUpdate(start: int, gga: string, ggaIsSet: bool, passes: seq<Pass>,
                                                interval: int)
    ensures var w, u := Watched(Start(start, gga, ggaIsSet), passes, interval), LastUpdate(gga, ggaIsSet, passes);
            !w.done ==> (w.ggaIsSet <==> u.Some?) && (u.Some? ==> w.gga == u.value)
  {
    hide Gga.Sentence;
    if passes != [] {
      SentenceIsLastUpdate(start, gga, ggaIsSet, passes[..|passes| - 1], interval);
    }
  }

  /** The sentence that a report in this pass has. */
  function Next(w: Watch, p: Pass): string {
    if p.update.Some? then p.update.value else if w.ggaIsSet then w.gga else Gga.Sentence(p.body)
  }

  lemma CheckOutcome(w: Watch, w1: Watch, p: Pass, interval: int)
    requires w1.begun == w.begun && !w1.done
    requires w1.gga == Update(w, p).gga && w1.ggaIsSet == Update(w, p).ggaIsSet
    ensures var w' := Check(w1, p, interval);
            if p.now - w.begun < interval then w' == w1
            else if w1.counter > 0 then
              !w'.done && w'.log == w1.log + [Reported(Next(w, p))] && w'.gga == Next(w, p)
            else w'.done && w'.log == w1.log && w'.gga == w1.gga
  {
    hide Gga.Sentence;
  }

  lemma TickOutcome(w: Watch, p: Pass, interval: int)
    requires !w.done
    ensures var w', due := Tick(w, p, interval), p.now - w.begun >= interval;
            if !p.running || p.receipt == EndOfStream || p.receipt == Error(true) then w'.done && w'.log == w.log
            else match p.receipt
              case Payload(text) =>
                && !w'.done
                && w'.log == w.log + if due && |text| != 4096 then [Received(text), Reported(Next(w, p))]
                                     else [Received(text)]
              case _ =>
                if !due then !w'.done && w'.log == w.log
                else if w.counter > 0 then !w'.done && w'.log == w.log + [Reported(Next(w, p))]
                else w'.done && w'.log == w.log
    ensures var w' := Tick(w, p, interval);
            w'.gga == if |w'.log| > |w.log| && w'.log[|w'.log| - 1].Reported? then w'.log[|w'.log| - 1].sentence
                      else if p.update.Some? then p.update.value
                      else w.gga
  {
    hide Check, Next;
    var w1 := Update(w, p);
    if p.running && p.receipt.Payload? {
      var text := p.receipt.text;
      var w2 := w1.(counter := PERIOD, log := w1.log + [Received(text)]);
      CheckOutcome(w, w2, p, interval);
      assert w.log + [Received(text)] + [Reported(Next(w, p))] == w.log + [Received(text), Reported(Next(w, p))];
    } else if p.running {
      CheckOutcome(w, w1, p, interval);
    }
  }

  /** What one more pass does, in every run, as long as the loop goes on. The interval counts
      from the last report, `t`, whatever was received since. A due report goes out, unless
      three have gone out in silence and nothing came: then the loop ends. It says what
      the application has set last, or what is made for the position. */
  lemma PassOutcome(start: int, gga: string, ggaIsSet: bool, passes: seq<Pass>, p: Pass, interval: int, t: int)
    requires !Watched(Start(start, gga, ggaIsSet), passes, interval).done
    requires LastReport(Start(start, gga, ggaIsSet), passes, interval, t)
    ensures var w0 := Start(start, gga, ggaIsSet);
            var w, w' := Watched(w0, passes, interval), Watched(w0, passes + [p], interval);
            var due := p.now - t >= interval;
            var report := match LastUpdate(gga, ggaIsSet, passes + [p])
                          case Some(sentence) => Reported(sentence)
                          case None => Reported(Gga.Sentence(p.body));
            if !p.running || p.receipt == EndOfStream || p.receipt == Error(true) then w'.done && w'.log == w.log
            else match p.receipt
              case Payload(text) =>
                && !w'.done
                && w'.log == w.log + if due && |text| != 4096 then [Received(text), report] else [Received(text)]
              case _ =>
                if !due then !w'.done && w'.log == w.log
                else if SilentReports(w.log) < 3 then !w'.done && w'.log == w.log + [report]
                else w'.done && w'.log == w.log
    ensures var w0 := Start(start, gga, ggaIsSet);
            var w, w' := Watched(w0, passes, interval), Watched(w0, passes + [p], interval);
            w'.gga == if |w'.log| > |w.log| && w'.log[|w'.log| - 1].Reported? then w'.log[|w'.log| - 1].sentence
                      else if p.update.Some? then p.update.value
                      else w.gga
  {
    hide SilentReports, LastReport, Gga.Sentence, Watched, Tick;
    var w0 := Start(start, gga, ggaIsSet);
    var w := Watched(w0, passes, interval);
    OnePass(w0, passes, p, interval);
    BegunIsLastReport(w0, passes, interval);
    OnlyLastReport(w0, passes, interval, w.begun, t);
    AlwaysCounts(start, gga, ggaIsSet, passes, interval);
    SentenceIsLastUpdate(start, gga, ggaIsSet, passes, interval);
    assert (passes + [p])[..|passes + [p]| - 1] == passes;
    TickOutcome(w, p, interval);
  }

  // ---------- silence ends the loop ----------

  /** From pass `i` on nothing arrives and nothing stops the service; the clock goes on. */
  ghost predicate Silence(env: nat -> Pass, i: nat) {
    && (forall k: nat | i <= k :: env(k).running && env(k).receipt == Error(false))
    && (forall k: nat | i <= k :: env(k).now <= env(k).restart < env(k + 1).now)
  }

  function After(env: nat -> Pass, w: Watch, i: nat, n: nat, interval: int): Watch
    requires i <= n
    decreases n - i
  {
    if i == n then w else After(env, Tick(w, env(i), interval), i + 1, n, interval)
  }

  function TimeLeft(w: Watch, now: int, interval: int): nat {
    if now - w.begun >= interval then 0 else interval - (now - w.begun)
  }

  function Rest(w: Watch): nat {
    if w.counter <= 0 then 0 else w.counter
  }

  /** Each silent pass that does not end the loop lowers the counter, or keeps it and
      lowers the time left in the interval. */
  lemma MeasureDecreases(env: nat -> Pass, w: Watch, i: nat, interval: int)
    requires !w.done && Silence(env, i)
    ensures var w' := Tick(w, env(i), interval);
            || w'.done
            || (0 < w.counter && w'.counter == w.counter - 1
                && exists t :: w'.log == w.log + [Reported(t)])
            || (w'.counter == w.counter && w'.log == w.log
                && TimeLeft(w', env(i + 1).now, interval) < TimeLeft(w, env(i).now, interval))
  {
    assert env(i).running && env(i).receipt == Error(false);
    assert env(i).now <= env(i).restart < env(i + 1).now;
  }

  /** `more` is `log` followed by `n` reports. */
  ghost predicate Continues(log: seq<Mark>, more: seq<Mark>, n: nat) {
    |more| == |log| + n && log <= more && forall k | |log| <= k < |more| :: more[k].Reported?
  }

  lemma SilenceGoesOn(env: nat -> Pass, i: nat)
    requires Silence(env, i)
    ensures Silence(env, i + 1)
  {
  }

  lemma OneMore(log: seq<Mark>, t: string, more: seq<Mark>, n: nat)
    requires Continues(log + [Reported(t)], more, n)
    ensures Continues(log, more, n + 1)
  {
    assert more[|log|] == (log + [Reported(t)])[|log|];
    assert log == more[..|log|];
  }

  lemma DoneAtOnce(env: nat -> Pass, w: Watch, i: nat, interval: int)
    requires !w.done && Silence(env, i) && Tick(w, env(i), interval).done
    ensures After(env, w, i, i + 1, interval).done
    ensures Continues(w.log, After(env, w, i, i + 1, interval).log, Rest(w))
  {
    assert env(i).running && env(i).receipt == Error(false);
  }

  /** In silence the loop ends, after as many reports as the counter says. */
  lemma {:induction false} SilenceEnds(env: nat -> Pass, w: Watch, i: nat, interval: int)
    requires !w.done && Silence(env, i)
    ensures exists n: nat :: i <= n && After(env, w, i, n, interval).done
              && Continues(w.log, After(env, w, i, n, interval).log, Rest(w))
    decreases Rest(w), TimeLeft(w, env(i).now, interval)
  {
    hide Continues;
    var w' := Tick(w, env(i), interval);
    MeasureDecreases(env, w, i, interval);
    if w'.done {
      DoneAtOnce(env, w, i, interval);
    } else {
      hide Tick, Silence;
      SilenceGoesOn(env, i);
      SilenceEnds(env, w', i + 1, interval);
      var n: nat :| i + 1 <= n && After(env, w', i + 1, n, interval).done
        && Continues(w'.log, After(env, w', i + 1, n, interval).log, Rest(w'));
      assert After(env, w, i, n, interval) == After(env, w', i + 1, n, interval);
      if w'.log != w.log {
        var t :| w'.log == w.log + [Reported(t)];
        OneMore(w.log, t, After(env, w, i, n, interval).log, Rest(w'));
      }
    }
  }
}
