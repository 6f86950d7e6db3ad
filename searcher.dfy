/**
 * The decisions of the search driver (src/searcher.rs): the rate gate that
 * throttles redraw notifications, the pattern update with its
 * extension flag, and the window of results handed to the list.
 *
 * The matching engine is not modelled: the patterns it is asked to reparse
 * are kept in a ghost log, and its latest matches are a field that `Tick`
 * replaces.
 */
module Search {
  import opened Wrappers
  import opened RustStr
  import Actions

  /** `Instant::elapsed`: the time since `since`, zero if the clock reads earlier. */
  function Elapsed(since: nat, now: nat): (r: nat)
    ensures now >= since ==> r + since == now
    ensures now < since ==> r == 0
  {
    if now >= since then now - since else 0
  }

  /** The gate of `send`: open when nothing was sent yet, or when strictly more than `delay` has passed since the last send. */
  predicate Forwards(lastSend: Option<nat>, delay: nat, now: nat): (r: bool)
    ensures r <==> lastSend.None? || now > lastSend.value + delay
    ensures lastSend.Some? && now <= lastSend.value ==> !r
  {
    lastSend.None? || Elapsed(lastSend.value, now) > delay
  }

  /** The delay of the redraw notifications, 100 ms in nanoseconds. */
  const DrawDelay: nat := 100_000_000

  /** Successive send times are more than `delay` apart. */
  ghost predicate SpacedBy(times: seq<nat>, delay: nat) {
    forall i :: 0 < i < |times| ==> times[i] > times[i - 1] + delay
  }

  /** Not only successive ones: any two send times are more than `delay` apart. */
  lemma {:induction false} SpacedPairs(times: seq<nat>, delay: nat, i: nat, j: nat)
    requires SpacedBy(times, delay) && i < j < |times|
    ensures times[j] > times[i] + delay
    decreases j - i
  {
    if i + 1 < j {
      SpacedPairs(times, delay, i, j - 1);
    }
  }

  /** A channel sender that drops messages that come too soon after the last one it let through. */
  class DebouncedSender<T> {
    var lastSend: Option<nat>
    /** What the channel has received, oldest first. */
    var sent: seq<T>
    /** When each message of `sent` went through. */
    ghost var times: seq<nat>

    constructor ()
      ensures lastSend.None? && sent == [] && times == []
    {
      lastSend := None;
      sent := [];
      times := [];
    }

    /** One time per message sent, and the recorded time is that of the last one. */
    ghost predicate Valid()
      reads this
    {
      && |times| == |sent|
      && (lastSend.None? <==> times == [])
      && (times != [] ==> lastSend == Some(times[|times| - 1]))
    }

    /**
     * `send`: through the gate the data is sent and the time recorded;
     * otherwise it is dropped and nothing changes. No later send is
     * scheduled for dropped data. `now` is the clock reading of the call.
     */
    method Send(data: T, delay: nat, now: nat)
      modifies this
      ensures Forwards(old(lastSend), delay, now) ==>
                sent == old(sent) + [data] && lastSend == Some(now) && times == old(times) + [now]
      ensures !Forwards(old(lastSend), delay, now) ==>
                sent == old(sent) && lastSend == old(lastSend) && times == old(times)
      ensures old(Valid()) ==> Valid()
      ensures old(Valid()) && old(SpacedBy(times, delay)) ==> SpacedBy(times, delay)
    {
      if lastSend.None? || Elapsed(lastSend.value, now) > delay {
        sent := sent + [data];
        lastSend := Some(now);
        times := times + [now];
      }
    }
  }

  /**
   * The first send always goes through; after one at `t`, a send is
   * dropped up to and including `t + delay` and let through afterwards.
   */
  lemma GateWindow(delay: nat, t: nat, now: nat)
    ensures Forwards(None, delay, now)
    ensures Forwards(Some(t), delay, now) <==> now > t + delay
  {
  }

  /** A burst of redraw requests: the first goes through, one within the delay is dropped, one after it goes through. */
  method DebounceExample() returns (sent: seq<int>)
    ensures sent == [1, 3]
  {
    var d := new DebouncedSender<int>();
    d.Send(1, DrawDelay, 0);
    d.Send(2, DrawDelay, DrawDelay);
    d.Send(3, DrawDelay, DrawDelay + 1);
    sent := d.sent;
  }

  /** `append` of `reparse`: the new pattern extends the last one. */
  function IsExtension(lastPattern: Option<string>, pattern: string): (r: bool)
    ensures r <==> lastPattern.Some? && |lastPattern.value| <= |pattern| && pattern[..|lastPattern.value|] == lastPattern.value
  {
    lastPattern.Some? && lastPattern.value <= pattern
  }

  /** One call into the engine: the pattern and whether it extends the previous one. */
  datatype Reparse = Reparse(pattern: string, append: bool)

  /** The extension flags of the source's discussion. */
  lemma ExtensionExamples()
    ensures IsExtension(Some("abc"), "abcd")
    ensures !IsExtension(Some("abc"), "ab")
    ensures !IsExtension(Some("abc"), "abx")
    ensures !IsExtension(None, "")
    ensures forall p :: IsExtension(Some(""), p)
  {
    assert "abcd"[..3] == "abc";
    assert "abx"[..3] != "abc" by { assert "abx"[2] != "abc"[2]; }
  }

  class Searcher {
    var lastPattern: Option<string>
    /** The reparse calls made so far, oldest first. */
    ghost var reparses: seq<Reparse>
    /** The engine's current matches, in rank order. */
    var matched: seq<string>
    /** The sender of the redraw notifications. */
    const notifier: DebouncedSender<Actions.Action>

    /**
     * The log starts with the empty pattern, no two consecutive reparses
     * share a pattern, and each reparse's flag says whether it extends the
     * one before; the engine counts its matches in a `u32`.
     */
    ghost predicate Valid()
      reads this
    {
      && |reparses| > 0
      && reparses[0] == Reparse("", false)
      && lastPattern == Some(reparses[|reparses| - 1].pattern)
      && (forall i :: 0 < i < |reparses| ==> reparses[i].pattern != reparses[i - 1].pattern)
      && (forall i :: 0 < i < |reparses| ==> reparses[i].append == (reparses[i - 1].pattern <= reparses[i].pattern))
      && |matched| < 0x1_0000_0000
    }

    /** `Searcher::new`: a search for the empty pattern comes first. */
    constructor ()
      ensures lastPattern == Some("") && reparses == [Reparse("", false)] && matched == []
      ensures fresh(notifier) && notifier.lastSend.None? && notifier.sent == [] && notifier.times == []
      ensures Valid()
    {
      lastPattern := None;
      reparses := [];
      matched := [];
      notifier := new DebouncedSender();
      new;
      Search("");
    }

    /**
     * `search`: the same pattern again does nothing; a new one is handed to
     * the engine, flagged as an extension when it starts with the last one.
     */
    method Search(pattern: string)
      modifies this
      ensures old(lastPattern) == Some(pattern) ==> lastPattern == old(lastPattern) && reparses == old(reparses)
      ensures old(lastPattern) != Some(pattern) ==>
                && lastPattern == Some(pattern)
                && reparses == old(reparses) + [Reparse(pattern, IsExtension(old(lastPattern), pattern))]
      ensures matched == old(matched)
      ensures old(Valid()) ==> Valid()
    {
      if lastPattern.Some? && pattern == lastPattern.value {
        return;
      }
      reparses := reparses + [Reparse(pattern, lastPattern.Some? && lastPattern.value <= pattern)];
      lastPattern := Some(pattern);
    }

    /** `tick`: the engine publishes its latest matches. */
    method Tick(snapshot: seq<string>)
      modifies this
      requires |snapshot| < 0x1_0000_0000
      ensures matched == snapshot && lastPattern == old(lastPattern) && reparses == old(reparses)
    {
      matched := snapshot;
    }

    /** The engine's redraw callback: a Draw action, at most one per 100 ms. */
    method NotifyDraw(now: nat)
      modifies notifier
      ensures Forwards(old(notifier.lastSend), DrawDelay, now) ==>
                notifier.sent == old(notifier.sent) + [Actions.Draw] && notifier.lastSend == Some(now)
      ensures !Forwards(old(notifier.lastSend), DrawDelay, now) ==>
                notifier.sent == old(notifier.sent) && notifier.lastSend == old(notifier.lastSend)
      ensures old(notifier.Valid()) && old(SpacedBy(notifier.times, DrawDelay)) ==>
                notifier.Valid() && SpacedBy(notifier.times, DrawDelay)
    {
      notifier.Send(Actions.Draw, DrawDelay, now);
    }

    /** `result_count`. */
    function ResultCount(): (r: nat)
      reads this
      ensures r == |matched|
    {
      |matched|
    }

    /**
     * `results`: the matches in the window of `height` rows from `offset`,
     * clipped to the matches there are. Both numbers are cast to `u32`
     * first, and their sum must not overflow it.
     */
    function Results(offset: nat, height: U16): (r: seq<string>)
      reads this
      requires |matched| < 0x1_0000_0000
      requires AsU32(offset) + height < 0x1_0000_0000
      ensures var o := AsU32(offset);
              && |r| <= height
              && (o >= |matched| ==> r == [])
              && (o < |matched| ==> |r| == if o + height <= |matched| then height else |matched| - o)
              && (forall i :: 0 <= i < |r| ==> r[i] == matched[o + i])
    {
      var o := AsU32(offset);
      var lo := if o <= |matched| then o else |matched|;
      var hi := if o + height <= |matched| then o + height else |matched|;
      var r := matched[lo..hi];
      assert forall i :: 0 <= i < |r| ==> r[i] == matched[lo + i];
      r
    }
  }

  /** Two adjacent windows of results together are the window spanning both. */
  lemma ResultsSplit(s: Searcher, offset: nat, h1: U16, h2: U16)
    requires |s.matched| < 0x1_0000_0000
    requires h1 + h2 <= U16_MAX && offset + h1 + h2 < 0x1_0000_0000
    ensures s.Results(offset, h1) + s.Results(offset + h1, h2) == s.Results(offset, h1 + h2)
  {
    var m := s.matched;
    var a, b, c := s.Results(offset, h1), s.Results(offset + h1, h2), s.Results(offset, h1 + h2);
    if offset + h1 <= |m| {
      assert |a| == h1;
      forall i | 0 <= i < |c|
        ensures (a + b)[i] == c[i]
      {
        if i >= h1 {
          assert (a + b)[i] == b[i - h1] == m[offset + i];
        }
      }
    } else {
      assert b == [];
      assert a == c;
    }
  }

  /** `as u32` on a `usize`: the low 32 bits. */
  function AsU32(n: nat): (r: nat)
    ensures r < 0x1_0000_0000
    ensures n < 0x1_0000_0000 ==> r == n
    ensures r % 0x1_0000_0000 == n % 0x1_0000_0000
  {
    n % 0x1_0000_0000
  }

  /** A window from the start as tall as the matches lists them all. */
  lemma ResultsAll(s: Searcher)
    requires |s.matched| <= U16_MAX
    ensures s.Results(0, |s.matched|) == s.matched
  {
  }

  /** After a run of searches the last pattern is the last one searched, and repeating it leaves the log as it was. */
  method SearchExample() returns (s: Searcher)
    ensures s.Valid() && s.lastPattern == Some("ab")
    ensures s.reparses == [Reparse("", false), Reparse("a", true), Reparse("ab", true)]
  {
    s := new Searcher();
    s.Search("a");
    s.Search("ab");
    s.Search("ab");
    assert "" <= "a" && "a" <= "ab";
  }
}
