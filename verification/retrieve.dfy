/** The fetch phase. Each candidate's snapshot is requested until it is
    stored, judged unavailable, or its retry budget is spent; the batch walks
    the candidate index in order and skips captures already on disk. The
    network is replaced by the sequence of responses the requests would
    receive, and the capture directory by a map from file name to contents. */
module Retrieve {
  import opened Options
  import opened Text
  import opened CaptureIndex
  import opened FileNames
  import opened Counters

  /** Failed attempts allowed per capture. */
  const Budget: nat := 3

  /** Markers of a snapshot that will never be served. */
  const JobFailed: string := "<p>Job failed</p>"
  const NotArchived: string := "<p>The Wayback Machine has not archived that URL.</p>"

  /** Markers of a busy archive: wait and ask again. */
  const SessionLimit: string := "<p>You have already reached the limit of active sessions.</p>"
  const GatewayTimeout: string := "<h1>504 Gateway Time-out</h1>"

  /** What one pass through the request block yields: a response body, or an
      exception (a failed or timed-out request, or a failed write of the
      capture file). */
  datatype Response = Body(text: string) | Raised

  predicate IsUnavailable(text: string) {
    |text| == 0 || Contains(text, JobFailed) || Contains(text, NotArchived)
  }

  predicate IsOverloaded(text: string) {
    Contains(text, SessionLimit) || Contains(text, GatewayTimeout)
  }

  /** A body that is stored: neither unavailable nor overloaded. */
  predicate IsCapture(text: string) {
    !IsUnavailable(text) && !IsOverloaded(text)
  }

  /** State of the retry loop for one capture: remaining retries, the
      counters, and the body written to disk, if any. */
  datatype Loop = Loop(retries: nat, tally: Tally, stored: Option<string>)

  /** One pass of the loop body. Unavailable bodies are recognised before
      overloaded ones. */
  function Step(s: Loop, r: Response): (t: Loop)
    requires s.retries > 0
    ensures t.retries <= s.retries
    ensures t.stored == s.stored || (t.retries == 0 && t.stored.Some?)
    ensures t.tally == s.tally
         || (t.retries == 0 && (t.tally == s.tally.Retrieved() || t.tally == s.tally.Error()))
  {
    match r
    case Raised =>
      var left := s.retries - 1;
      Loop(left, if left == 0 then s.tally.Error() else s.tally, s.stored)
    case Body(text) =>
      if IsUnavailable(text) then Loop(0, s.tally.Error(), s.stored)
      else if IsOverloaded(text) then s
      else Loop(0, s.tally.Retrieved(), Some(text))
  }

  /** The loop's final state and how many responses it consumed. */
  datatype Run = Run(last: Loop, used: nat)

  /** `while retries > 0`, over a finite supply of responses; when the
      supply runs out first the loop has not settled. */
  function Drive(s: Loop, rs: seq<Response>): (r: Run)
    ensures r.used <= |rs|
    ensures r.last.retries <= s.retries
    ensures r.last.retries > 0 ==> r.used == |rs|
    decreases |rs|
  {
    if s.retries == 0 || rs == [] then Run(s, 0)
    else
      var rest := Drive(Step(s, rs[0]), rs[1..]);
      Run(rest.last, rest.used + 1)
  }

  /** Number of exceptions in a sequence of responses. */
  function Failures(rs: seq<Response>): nat {
    if rs == [] then 0 else (if rs[0].Raised? then 1 else 0) + Failures(rs[1..])
  }

  /** A fresh loop ends in one of three ways: still waiting when the
      responses run out (counters untouched), stored (one more retrieved),
      or given up (one more error). Exactly one counter moves. */
  lemma {:induction false} DriveSettles(k: nat, t: Tally, rs: seq<Response>)
    requires k > 0
    ensures var r := Drive(Loop(k, t, None), rs);
      || (r.last.retries > 0 && r.last.tally == t && r.last.stored == None)
      || (r.last.retries == 0 && r.last.tally == t.Retrieved() && r.last.stored.Some?)
      || (r.last.retries == 0 && r.last.tally == t.Error() && r.last.stored == None)
    decreases |rs|
  {
    if rs != [] {
      var s := Step(Loop(k, t, None), rs[0]);
      if s.retries > 0 {
        assert s == Loop(s.retries, t, None);
        DriveSettles(s.retries, t, rs[1..]);
      }
    }
  }

  /** What is stored is the last response consumed, and it is a capture. */
  lemma {:induction false} StoredIsLastCapture(k: nat, t: Tally, rs: seq<Response>)
    requires k > 0
    ensures var r := Drive(Loop(k, t, None), rs);
      r.last.stored.Some? ==>
        r.used > 0 && rs[r.used - 1] == Body(r.last.stored.value)
        && IsCapture(r.last.stored.value)
    decreases |rs|
  {
    if rs != [] {
      var s := Step(Loop(k, t, None), rs[0]);
      if s.retries > 0 {
        assert s == Loop(s.retries, t, None);
        StoredIsLastCapture(s.retries, t, rs[1..]);
        var r := Drive(s, rs[1..]);
        if r.last.stored.Some? {
          assert rs[1..][r.used - 1] == rs[r.used];
        }
      }
    }
  }

  /** A body that is a capture is written at once: the loop ends, the body
      is what is stored, and one more capture is retrieved. */
  lemma CaptureStored(s: Loop, text: string, rs: seq<Response>)
    requires s.retries > 0 && IsCapture(text)
    ensures Drive(s, [Body(text)] + rs) == Run(Loop(0, s.tally.Retrieved(), Some(text)), 1)
  {
    assert ([Body(text)] + rs)[1..] == rs;
  }

  /** An overloaded body costs nothing: the loop goes on as if it had not
      arrived. */
  lemma OverloadTransparent(s: Loop, text: string, rs: seq<Response>)
    requires s.retries > 0 && !IsUnavailable(text) && IsOverloaded(text)
    ensures Drive(s, [Body(text)] + rs) == Run(Drive(s, rs).last, Drive(s, rs).used + 1)
  {
    assert ([Body(text)] + rs)[1..] == rs;
  }

  /** An unavailable body ends the loop with one error at once, even when it
      also carries an overload marker. */
  lemma UnavailableFirst(k: nat, t: Tally, text: string, rs: seq<Response>)
    requires k > 0 && IsUnavailable(text)
    ensures Drive(Loop(k, t, None), [Body(text)] + rs) == Run(Loop(0, t.Error(), None), 1)
  {
    assert ([Body(text)] + rs)[1..] == rs;
  }

  /** Retries only drop on an exception, so the exceptions consumed never
      exceed the budget spent. */
  lemma {:induction false} FailuresWithinBudget(s: Loop, rs: seq<Response>)
    ensures var r := Drive(s, rs);
      Failures(rs[..r.used]) <= s.retries - r.last.retries
    decreases |rs|
  {
    if s.retries > 0 && rs != [] {
      var s1 := Step(s, rs[0]);
      FailuresWithinBudget(s1, rs[1..]);
      var r := Drive(s, rs);
      assert rs[..r.used][1..] == rs[1..][..r.used - 1];
    }
  }

  /** A run of exceptions and overloaded bodies that holds as many
      exceptions as there are retries gives the capture up with one error. */
  lemma {:induction false} ExhaustedGivesUp(k: nat, t: Tally, rs: seq<Response>)
    requires k > 0 && Failures(rs) >= k
    requires forall i :: 0 <= i < |rs| && rs[i].Body? ==>
      !IsUnavailable(rs[i].text) && IsOverloaded(rs[i].text)
    ensures var r := Drive(Loop(k, t, None), rs);
      r.last == Loop(0, t.Error(), None) && Failures(rs[..r.used]) == k
    decreases |rs|
  {
    var s := Step(Loop(k, t, None), rs[0]);
    var r := Drive(Loop(k, t, None), rs);
    if rs[0].Raised? && k == 1 {
      assert s == Loop(0, t.Error(), None);
      assert Drive(s, rs[1..]) == Run(s, 0);
      assert r.used == 1;
      assert rs[..1] == [rs[0]];
      assert Failures(rs[..1]) == 1 + Failures(rs[..1][1..]);
    } else {
      assert s == Loop(if rs[0].Raised? then k - 1 else k, t, None);
      ExhaustedGivesUp(s.retries, t, rs[1..]);
      assert rs[..r.used][1..] == rs[1..][..r.used - 1];
    }
  }

  /** Outcome of fetching one record, or a whole batch: the capture
      directory afterwards, the counters, the responses consumed, and
      whether the loop settled (a capture that is never settled holds the
      batch on that record). */
  datatype Batch = Batch(disk: map<string, string>, tally: Tally, used: nat, settled: bool)

  /** One record of the index. A capture whose file already exists counts
      as retrieved without a request. */
  function FetchOne(c: Candidate, disk: map<string, string>, t: Tally, rs: seq<Response>): (b: Batch)
    ensures b.used <= |rs|
  {
    var name := FileName(c.id, c.mime);
    if name in disk then Batch(disk, t.Retrieved(), 0, true)
    else
      var run := Drive(Loop(Budget, t, None), rs);
      var after := match run.last.stored
        case Some(body) => disk[name := body]
        case None => disk;
      Batch(after, run.last.tally, run.used, run.last.retries == 0)
  }

  /** Disk contents only grow: no file is removed or rewritten. */
  predicate Grows(before: map<string, string>, after: map<string, string>) {
    forall name :: name in before ==> name in after && after[name] == before[name]
  }

  /** Every file the phase writes is named after a candidate. */
  predicate NamedAfter(before: map<string, string>, after: map<string, string>, cs: seq<Candidate>) {
    forall name :: name in after ==>
      name in before || exists i :: 0 <= i < |cs| && name == FileName(cs[i].id, cs[i].mime)
  }

  lemma FetchOneEffect(c: Candidate, disk: map<string, string>, t: Tally, rs: seq<Response>)
    ensures var b := FetchOne(c, disk, t, rs);
      && Grows(disk, b.disk)
      && (forall name :: name in b.disk ==> name in disk || name == FileName(c.id, c.mime))
      && (b.settled ==> b.tally == t.Retrieved() || b.tally == t.Error())
      && (!b.settled ==> b.tally == t && b.used == |rs|)
      && (b.settled && b.tally == t.Retrieved() ==> FileName(c.id, c.mime) in b.disk)
      && (FileName(c.id, c.mime) in disk ==> b == Batch(disk, t.Retrieved(), 0, true))
  {
    var name := FileName(c.id, c.mime);
    if name !in disk {
      FetchOneRequests(c, disk, t, rs);
    }
  }

  /** A capture not yet on disk goes through the retry loop. */
  lemma FetchOneRequests(c: Candidate, disk: map<string, string>, t: Tally, rs: seq<Response>)
    requires FileName(c.id, c.mime) !in disk
    ensures var b := FetchOne(c, disk, t, rs);
      && Grows(disk, b.disk)
      && (forall name :: name in b.disk ==> name in disk || name == FileName(c.id, c.mime))
      && (b.settled ==> b.tally == t.Retrieved() || b.tally == t.Error())
      && (!b.settled ==> b.tally == t && b.used == |rs|)
      && (b.settled && b.tally == t.Retrieved() ==> FileName(c.id, c.mime) in b.disk)
  {
    DriveSettles(Budget, t, rs);
  }

  /** A missing capture whose first response is a capture is written under
      its file name and counted, after one request. */
  lemma FetchOneStores(c: Candidate, disk: map<string, string>, t: Tally, text: string, rs: seq<Response>)
    requires FileName(c.id, c.mime) !in disk && IsCapture(text)
    ensures FetchOne(c, disk, t, [Body(text)] + rs)
         == Batch(disk[FileName(c.id, c.mime) := text], t.Retrieved(), 1, true)
  {
    CaptureStored(Loop(Budget, t, None), text, rs);
  }

  /** The whole fetch loop over the index, in order. */
  function FetchAll(cs: seq<Candidate>, disk: map<string, string>, t: Tally, rs: seq<Response>): (b: Batch)
    ensures b.used <= |rs|
    decreases |cs|
  {
    if cs == [] then Batch(disk, t, 0, true)
    else
      var one := FetchOne(cs[0], disk, t, rs);
      if !one.settled then one
      else
        var rest := FetchAll(cs[1..], one.disk, one.tally, rs[one.used..]);
        rest.(used := one.used + rest.used)
  }

  /** Over a settled batch each record moved exactly one counter; files are
      only added, and only under candidates' names. */
  lemma {:induction false} FetchAllEffect(cs: seq<Candidate>, disk: map<string, string>, t: Tally, rs: seq<Response>)
    ensures var b := FetchAll(cs, disk, t, rs);
      && Grows(disk, b.disk)
      && NamedAfter(disk, b.disk, cs)
      && b.tally.count >= t.count && b.tally.errors >= t.errors
      && (b.settled ==> b.tally.count + b.tally.errors == t.count + t.errors + |cs|)
    decreases |cs|
  {
    if cs != [] {
      var one := FetchOne(cs[0], disk, t, rs);
      FetchOneEffect(cs[0], disk, t, rs);
      if one.settled {
        var rest := FetchAll(cs[1..], one.disk, one.tally, rs[one.used..]);
        FetchAllEffect(cs[1..], one.disk, one.tally, rs[one.used..]);
        NamedAfterCons(cs, disk, one.disk, rest.disk);
      }
    }
  }

  /** Files named after the first candidate, then files named after the
      rest, are files named after the whole sequence. */
  lemma NamedAfterCons(cs: seq<Candidate>, disk: map<string, string>, mid: map<string, string>, after: map<string, string>)
    requires cs != []
    requires forall name :: name in mid ==> name in disk || name == FileName(cs[0].id, cs[0].mime)
    requires NamedAfter(mid, after, cs[1..])
    ensures NamedAfter(disk, after, cs)
  {
    forall name | name in after
      ensures name in disk || exists i :: 0 <= i < |cs| && name == FileName(cs[i].id, cs[i].mime)
    {
      if name !in mid {
        var i :| 0 <= i < |cs[1..]| && name == FileName(cs[1..][i].id, cs[1..][i].mime);
        assert cs[1..][i] == cs[i + 1];
        assert 0 <= i + 1 < |cs| && name == FileName(cs[i + 1].id, cs[i + 1].mime);
      } else if name !in disk {
        assert 0 < |cs| && name == FileName(cs[0].id, cs[0].mime);
      }
    }
  }

  /** Every candidate's file already present: the batch makes no request,
      counts each record as retrieved and leaves the directory alone. */
  lemma {:induction false} AllPresentNoRequests(cs: seq<Candidate>, disk: map<string, string>, t: Tally, rs: seq<Response>)
    requires forall i :: 0 <= i < |cs| ==> FileName(cs[i].id, cs[i].mime) in disk
    ensures FetchAll(cs, disk, t, rs) == Batch(disk, Tally(t.count + |cs|, t.errors), 0, true)
    decreases |cs|
  {
    if cs != [] {
      assert FileName(cs[0].id, cs[0].mime) in disk;
      AllPresentNoRequests(cs[1..], disk, t.Retrieved(), rs[0..]);
      assert rs[0..] == rs;
    }
  }

  /** A settled batch with no new error leaves every candidate's file on
      disk. */
  lemma {:induction false} CleanBatchStoresAll(cs: seq<Candidate>, disk: map<string, string>, t: Tally, rs: seq<Response>)
    requires FetchAll(cs, disk, t, rs).settled && FetchAll(cs, disk, t, rs).tally.errors == t.errors
    ensures forall i :: 0 <= i < |cs| ==> FileName(cs[i].id, cs[i].mime) in FetchAll(cs, disk, t, rs).disk
    decreases |cs|
  {
    if cs != [] {
      CleanHead(cs, disk, t, rs);
      var one := FetchOne(cs[0], disk, t, rs);
      var rest := FetchAll(cs[1..], one.disk, one.tally, rs[one.used..]);
      FetchAllEffect(cs[1..], one.disk, one.tally, rs[one.used..]);
      CleanBatchStoresAll(cs[1..], one.disk, one.tally, rs[one.used..]);
      StoredAcross(cs, one.disk, rest.disk);
    }
  }

  /** The first candidate's file, kept as the disk grows, and the rest's
      files are every candidate's file. */
  lemma StoredAcross(cs: seq<Candidate>, mid: map<string, string>, after: map<string, string>)
    requires cs != [] && FileName(cs[0].id, cs[0].mime) in mid && Grows(mid, after)
    requires forall i :: 0 <= i < |cs[1..]| ==> FileName(cs[1..][i].id, cs[1..][i].mime) in after
    ensures forall i :: 0 <= i < |cs| ==> FileName(cs[i].id, cs[i].mime) in after
  {
    forall i | 0 <= i < |cs| ensures FileName(cs[i].id, cs[i].mime) in after {
      if i > 0 {
        assert cs[1..][i - 1] == cs[i];
      }
    }
  }

  /** The first record of a clean batch was retrieved and stored, and the
      rest of the batch is clean too. */
  lemma CleanHead(cs: seq<Candidate>, disk: map<string, string>, t: Tally, rs: seq<Response>)
    requires cs != []
    requires FetchAll(cs, disk, t, rs).settled && FetchAll(cs, disk, t, rs).tally.errors == t.errors
    ensures var one := FetchOne(cs[0], disk, t, rs);
      && one.settled && one.tally == t.Retrieved() && FileName(cs[0].id, cs[0].mime) in one.disk
      && var rest := FetchAll(cs[1..], one.disk, one.tally, rs[one.used..]);
         && rest.disk == FetchAll(cs, disk, t, rs).disk
         && rest.settled && rest.tally.errors == one.tally.errors
  {
    var one := FetchOne(cs[0], disk, t, rs);
    var b := FetchAll(cs, disk, t, rs);
    FetchOneEffect(cs[0], disk, t, rs);
    assert one.settled;
    var rest := FetchAll(cs[1..], one.disk, one.tally, rs[one.used..]);
    assert b.disk == rest.disk && b.tally == rest.tally && b.settled == rest.settled;
    FetchAllEffect(cs[1..], one.disk, one.tally, rs[one.used..]);
  }

  /** Running the phase again after a clean batch makes no request at all. */
  lemma RerunIsFree(cs: seq<Candidate>, disk: map<string, string>, t: Tally, rs: seq<Response>,
                    t2: Tally, rs2: seq<Response>)
    requires FetchAll(cs, disk, t, rs).settled && FetchAll(cs, disk, t, rs).tally.errors == t.errors
    ensures var b := FetchAll(cs, disk, t, rs);
      FetchAll(cs, b.disk, t2, rs2) == Batch(b.disk, Tally(t2.count + |cs|, t2.errors), 0, true)
  {
    var b := FetchAll(cs, disk, t, rs);
    CleanBatchStoresAll(cs, disk, t, rs);
    AllPresentNoRequests(cs, b.disk, t2, rs2);
  }
}
