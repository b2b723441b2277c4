/** The language monitor of core/taskbar.py: it samples the active keyboard
    layout, writes the taskbar's ColorPrevalence preference (0 when the layout
    is the default UI language, 1 otherwise) once at start and again on every
    change, and is started, stopped and restarted as the `taskbar_color`
    setting changes. The worker thread becomes explicit `Tick` calls; the
    operating system's preference store is the `pref` field, and every write
    to it is logged in `writes`. */
module Taskbar {

  /** `get_current_input_language` on Windows: the low 16 bits of the
      keyboard layout handle, the language identifier. The handle is any
      integer; `%` here is Euclidean, which agrees with Python's
      `& 0xFFFF` on negative integers as well. */
  function LanguageId(layout: int): (id: int)
    ensures 0 <= id < 0x1_0000
    ensures (layout - id) % 0x1_0000 == 0
  {
    layout % 0x1_0000
  }

  /** A layout handle made of any high part and a 16-bit low part yields that
      low part. */
  lemma LanguageIdIsLowBits(high: int, low: int)
    requires 0 <= low < 0x1_0000
    ensures LanguageId(high * 0x1_0000 + low) == low
  {
    var x := high * 0x1_0000 + low;
    var id := LanguageId(x);
    assert (x - id) % 0x1_0000 == 0;
    assert x - id == high * 0x1_0000 + (low - id);
    assert (low - id) % 0x1_0000 == 0;
  }

  /** The ColorPrevalence value for a sampled language: 0 (plain taskbar)
      when it is the default UI language, 1 (accent colour) otherwise. */
  function Decision(sample: int, defaultUi: int): (value: int)
    ensures value == 0 || value == 1
    ensures value == 0 <==> sample == defaultUi
  {
    if sample == defaultUi then 0 else 1
  }

  /** The configuration the monitor reads; only "taskbar_color" matters. */
  type Config = map<string, bool>

  /** `config.get("taskbar_color", False)`. */
  function TaskbarColor(config: Config): (enabled: bool)
    ensures enabled <==> "taskbar_color" in config && config["taskbar_color"]
  {
    if "taskbar_color" in config then config["taskbar_color"] else false
  }

  // ---------------------------------------------------------------------
  // The writes of one worker, as a function of the samples it takes

  /** The sample the worker compares position `i` of `samples` with: the
      initial sample before the first, the previous sample after that. */
  function Previous(first: int, samples: seq<int>, i: nat): int
    requires i < |samples|
  {
    if i == 0 then first else samples[i - 1]
  }

  /** `last_layout_id` after the worker has taken `samples`: it always ends
      equal to the latest sample, whether or not that sample changed. */
  function LastSeen(first: int, samples: seq<int>): (r: int)
    ensures r == ([first] + samples)[|samples|]
  {
    if samples == [] then first else samples[|samples| - 1]
  }

  /** The preference writes of the poll loop: one per sample that differs
      from the one before it, with the decision for that sample. */
  function PollWrites(first: int, samples: seq<int>, defaultUi: int): (r: seq<int>)
    ensures |r| <= |samples|
  {
    if samples == [] then []
    else
      var n := |samples| - 1;
      PollWrites(first, samples[..n], defaultUi) +
        if samples[n] != LastSeen(first, samples[..n]) then [Decision(samples[n], defaultUi)] else []
  }

  /** Everything one worker writes: the initial push, then the poll loop's. */
  function WorkerWrites(first: int, samples: seq<int>, defaultUi: int): (r: seq<int>)
    ensures 1 <= |r| <= 1 + |samples| && r[0] == Decision(first, defaultUi)
  {
    [Decision(first, defaultUi)] + PollWrites(first, samples, defaultUi)
  }

  /** The positions at which a sample differs from the one before it. */
  function Changes(first: int, samples: seq<int>): set<nat> {
    set i: nat | i < |samples| && samples[i] != Previous(first, samples, i)
  }

  lemma ChangesOfPrefix(first: int, samples: seq<int>)
    requires samples != []
    ensures var n := |samples| - 1;
      Changes(first, samples) ==
        Changes(first, samples[..n]) + (if samples[n] != LastSeen(first, samples[..n]) then {n} else {})
  {
    var n := |samples| - 1;
    var prefix := samples[..n];
    assert forall i :: 0 <= i < n ==> Previous(first, samples, i) == Previous(first, prefix, i);
  }

  /** The poll loop writes exactly once per change of sample. */
  lemma {:induction false} PollWritesCount(first: int, samples: seq<int>, defaultUi: int)
    ensures |PollWrites(first, samples, defaultUi)| == |Changes(first, samples)|
  {
    if samples != [] {
      var n := |samples| - 1;
      PollWritesCount(first, samples[..n], defaultUi);
      ChangesOfPrefix(first, samples);
      assert n !in Changes(first, samples[..n]);
    }
  }

  /** Every value the poll loop writes is 0 or 1. */
  lemma {:induction false} PollWritesAreFlags(first: int, samples: seq<int>, defaultUi: int)
    ensures forall i :: 0 <= i < |PollWrites(first, samples, defaultUi)| ==>
      PollWrites(first, samples, defaultUi)[i] in {0, 1}
  {
    if samples != [] {
      PollWritesAreFlags(first, samples[..|samples| - 1], defaultUi);
    }
  }

  /** Over a whole run: 1 + (number of changes) writes, every one 0 or 1, the
      latest equal to the decision for the latest sample. */
  lemma {:induction false} WorkerWritesSummary(first: int, samples: seq<int>, defaultUi: int)
    ensures var w := WorkerWrites(first, samples, defaultUi);
      && |w| == 1 + |Changes(first, samples)|
      && (forall i :: 0 <= i < |w| ==> w[i] in {0, 1})
      && w[|w| - 1] == Decision(LastSeen(first, samples), defaultUi)
  {
    PollWritesCount(first, samples, defaultUi);
    PollWritesAreFlags(first, samples, defaultUi);
    LatestWrite(first, samples, defaultUi);
  }

  /** A worker's latest write is the decision for its latest sample: the
      last change is the latest sample, or the initial push when nothing
      changed. */
  lemma {:induction false} LatestWrite(first: int, samples: seq<int>, defaultUi: int)
    ensures var w := WorkerWrites(first, samples, defaultUi);
      w[|w| - 1] == Decision(LastSeen(first, samples), defaultUi)
  {
    if samples != [] {
      var n := |samples| - 1;
      LatestWrite(first, samples[..n], defaultUi);
    }
  }

  /** Sampling the same layout over and over writes nothing after the
      initial push. */
  lemma {:induction false} SteadyLayoutNoWrites(first: int, samples: seq<int>, defaultUi: int)
    requires forall i :: 0 <= i < |samples| ==> samples[i] == first
    ensures PollWrites(first, samples, defaultUi) == []
  {
    if samples != [] {
      var n := |samples| - 1;
      SteadyLayoutNoWrites(first, samples[..n], defaultUi);
    }
  }

  /** Layouts 100, 100, 101, 101, 100 with default 100: the initial push
      writes 0, the third sample 1 and the fifth 0; the others write nothing. */
  lemma ScenarioWrites()
    ensures WorkerWrites(100, [], 100) == [0]
    ensures PollWrites(100, [100], 100) == []
    ensures PollWrites(100, [100, 101], 100) == [1]
    ensures PollWrites(100, [100, 101, 101], 100) == [1]
    ensures PollWrites(100, [100, 101, 101, 100], 100) == [1, 0]
    ensures WorkerWrites(100, [100, 101, 101, 100], 100) == [0, 1, 0]
  {
    var s := [100, 101, 101, 100];
    assert s[..3] == [100, 101, 101] && s[..2] == [100, 101] && s[..1] == [100];
    assert [100, 101, 101][..2] == [100, 101] && [100, 101][..1] == [100];
    assert PollWrites(100, [100], 100) == [];
    assert PollWrites(100, [100, 101], 100) == [1];
    assert PollWrites(100, [100, 101, 101], 100) == [1];
  }

  // ---------------------------------------------------------------------
  // The monitor

  /** The module globals `language_monitor_thread` and
      `language_monitor_stop_event`, the worker's `last_layout_id`, and the
      preference the worker writes. */
  class LanguageMonitor {
    /** A worker handle is held (`language_monitor_thread` is not None). */
    var running: bool
    /** The held worker's `last_layout_id`. */
    var last: int
    /** ColorPrevalence as the operating system holds it. */
    var pref: int
    /** Every `set_color_prevalence` call, oldest first. */
    var writes: seq<int>
    /** Workers whose handle was overwritten by a second start: nothing can
        stop them any more. */
    var orphaned: nat

    /** `pref` is the latest write; every write is 0 or 1; a held worker has
        made its initial push; once a worker was stopped and none runs, the
        preference is 0. */
    ghost predicate Valid()
      reads this
    {
      && (writes != [] ==> pref == writes[|writes| - 1])
      && (forall i :: 0 <= i < |writes| ==> writes[i] in {0, 1})
      && (running ==> writes != [])
      && (!running && writes != [] ==> pref == 0)
    }

    /** Process start: no worker, the preference as the system has it. */
    constructor (pref: int)
      ensures Valid()
      ensures !running && this.pref == pref && writes == [] && orphaned == 0
    {
      running := false;
      last := 0;
      this.pref := pref;
      writes := [];
      orphaned := 0;
    }

    /** `set_color_prevalence`: the value reaches the preference store. This
        is the write primitive that `Start`, `Tick` and `Stop` call with 0 or
        1; it does not keep `Valid()` by itself, and those callers restore
        it. */
    method SetColorPrevalence(value: int)
      modifies this`pref, this`writes
      ensures pref == value && writes == old(writes) + [value]
    {
      pref := value;
      writes := writes + [value];
    }

    /** `start_language_monitor` followed by the new worker's initial push:
        with `taskbar_color` set in the loaded configuration a worker is
        started, takes `sample` as its first layout and writes the decision
        for it; without, nothing happens. A handle already held is
        overwritten, not stopped. */
    method Start(loaded: Config, sample: int, defaultUi: int)
      requires Valid()
      modifies this
      ensures Valid()
      ensures if TaskbarColor(loaded) then
          && running && last == sample
          && pref == Decision(sample, defaultUi)
          && writes == old(writes) + [Decision(sample, defaultUi)]
          && orphaned == old(orphaned) + (if old(running) then 1 else 0)
        else
          && running == old(running) && last == old(last) && pref == old(pref)
          && writes == old(writes) && orphaned == old(orphaned)
    {
      if TaskbarColor(loaded) {
        if running {
          orphaned := orphaned + 1;
        }
        running := true;
        last := sample;
        SetColorPrevalence(Decision(sample, defaultUi));
      }
    }

    /** One pass of the worker's poll loop: a sample equal to the last one
        changes nothing; a different one becomes the last one and its
        decision is written. */
    method Tick(sample: int, defaultUi: int)
      requires Valid() && running
      modifies this
      ensures Valid() && running && last == sample && orphaned == old(orphaned)
      ensures sample == old(last) ==> pref == old(pref) && writes == old(writes)
      ensures sample != old(last) ==>
        pref == Decision(sample, defaultUi) && writes == old(writes) + [Decision(sample, defaultUi)]
    {
      if sample != last {
        last := sample;
        if sample == defaultUi {
          SetColorPrevalence(0);
        } else {
          SetColorPrevalence(1);
        }
      }
    }

    /** The poll loop over a run of samples, with a fixed default language:
        what it writes is `PollWrites`. */
    method Poll(samples: seq<int>, defaultUi: int)
      requires Valid() && running
      modifies this
      ensures Valid() && running && orphaned == old(orphaned)
      ensures last == LastSeen(old(last), samples)
      ensures writes == old(writes) + PollWrites(old(last), samples, defaultUi)
    {
      var i := 0;
      while i < |samples|
        invariant 0 <= i <= |samples|
        invariant Valid() && running && orphaned == old(orphaned)
        invariant last == LastSeen(old(last), samples[..i])
        invariant writes == old(writes) + PollWrites(old(last), samples[..i], defaultUi)
      {
        assert samples[..i + 1][..i] == samples[..i];
        Tick(samples[i], defaultUi);
        i := i + 1;
      }
      assert samples[..i] == samples;
    }

    /** `stop_language_monitor`: with no worker held, nothing happens;
        otherwise 0 is written and the handle is dropped. */
    method Stop()
      requires Valid()
      modifies this
      ensures Valid() && !running && last == old(last) && orphaned == old(orphaned)
      ensures old(running) ==> pref == 0 && writes == old(writes) + [0]
      ensures !old(running) ==> pref == old(pref) && writes == old(writes)
    {
      if running {
        SetColorPrevalence(0);
        running := false;
      }
    }

    /** `on_config_change`: always stop first, then start again when the new
        configuration sets `taskbar_color`; the start itself re-reads the
        configuration (`loaded`). No handle is ever overwritten here. */
    method OnConfigChange(newConfig: Config, loaded: Config, sample: int, defaultUi: int)
      requires Valid()
      modifies this
      ensures Valid() && orphaned == old(orphaned)
      ensures running <==> TaskbarColor(newConfig) && TaskbarColor(loaded)
      ensures running ==> last == sample && pref == Decision(sample, defaultUi)
      ensures !running && (old(running) || old(writes) != []) ==> pref == 0
      ensures writes == old(writes) + (if old(running) then [0] else []) +
        (if running then [Decision(sample, defaultUi)] else [])
      ensures writes == old(writes) ==> pref == old(pref)
      ensures !running ==> last == old(last)
    {
      Stop();
      if TaskbarColor(newConfig) {
        if !running {
          Start(loaded, sample, defaultUi);
        }
      }
    }
  }

  /** The whole life of one worker with a fixed default language: started
      from a stopped monitor, polled over `samples`, then stopped. It writes
      the worker's writes followed by 0, and leaves the preference at 0. */
  method RunWorker(monitor: LanguageMonitor, config: Config, first: int, samples: seq<int>, defaultUi: int)
    requires monitor.Valid() && !monitor.running && TaskbarColor(config)
    modifies monitor
    ensures monitor.Valid() && !monitor.running && monitor.pref == 0
    ensures monitor.orphaned == old(monitor.orphaned)
    ensures monitor.writes == old(monitor.writes) + WorkerWrites(first, samples, defaultUi) + [0]
  {
    monitor.Start(config, first, defaultUi);
    monitor.Poll(samples, defaultUi);
    monitor.Stop();
  }
}
