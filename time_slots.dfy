/**
 * Hourly booking slots of the frontend (housecallpro-frontend/src/utils/timeSlots.ts):
 * `generateTimeSlots` steps an hour at a time through a day range and keeps the
 * slots that end inside it; `filterBookedSlots` drops the slots that an existing
 * job's schedule hits.
 *
 * Times are integer minutes on one timeline; a slot is its start and end. The
 * labels the source builds with `toLocaleTimeString` and parses back with `Date`
 * are only modelled as far as their `" - "` separator goes.
 */
module TimeSlots {
  import opened Seqs
  import opened Text

  /** One hour, in minutes. */
  const Hour: int := 60

  /** A slot `[start, end)`. */
  datatype Slot = Slot(start: int, end: int)

  /** The schedule of an existing job, `[scheduledStart, scheduledEnd)`. */
  datatype Job = Job(id: string, scheduledStart: int, scheduledEnd: int)

  /** The slots the loop emits from cursor `start`: while the cursor is before `end`, a slot
      of one hour from the cursor is kept when it ends by `end`, and the cursor moves on by
      an hour. */
  function HourlySlots(start: int, end: int): seq<Slot>
    decreases end - start
  {
    if start < end then
      (if start + Hour <= end then [Slot(start, start + Hour)] else []) + HourlySlots(start + Hour, end)
    else []
  }

  /** The number of whole hours in `[start, end)`. */
  function WholeHours(start: int, end: int): nat {
    if start < end then (end - start) / Hour else 0
  }

  /** Slot `k` is the `k`-th hour after `start`, and there are as many slots as whole hours
      fit before `end`: a trailing partial hour yields none, and `start >= end` yields none. */
  lemma {:induction false} HourlySlotsShape(start: int, end: int)
    ensures |HourlySlots(start, end)| == WholeHours(start, end)
    ensures forall k :: 0 <= k < |HourlySlots(start, end)| ==>
      HourlySlots(start, end)[k] == Slot(start + k * Hour, start + (k + 1) * Hour)
    decreases end - start
  {
    if start < end {
      HourlySlotsShape(start + Hour, end);
      var rest := HourlySlots(start + Hour, end);
      if start + Hour <= end {
        assert WholeHours(start, end) == WholeHours(start + Hour, end) + 1;
        forall k | 1 <= k < |rest| + 1
          ensures HourlySlots(start, end)[k] == Slot(start + k * Hour, start + (k + 1) * Hour)
        {
          assert HourlySlots(start, end)[k] == rest[k - 1];
        }
      } else {
        assert rest == [];
      }
    }
  }

  /** Every slot is one hour long, lies inside `[start, end]`, and begins where the previous
      one ends. */
  lemma HourlySlotsWithinRange(start: int, end: int)
    ensures forall s :: s in HourlySlots(start, end) ==>
      s.end - s.start == Hour && start <= s.start && s.end <= end
    ensures forall k :: 0 < k < |HourlySlots(start, end)| ==>
      HourlySlots(start, end)[k - 1].end == HourlySlots(start, end)[k].start
  {
    var slots := HourlySlots(start, end);
    HourlySlotsShape(start, end);
    forall s | s in slots
      ensures s.end - s.start == Hour && start <= s.start && s.end <= end
    {
      var k :| 0 <= k < |slots| && slots[k] == s;
      assert (k + 1) * Hour <= WholeHours(start, end) * Hour;
      assert WholeHours(start, end) * Hour <= end - start;
    }
  }

  /** `generateTimeSlots`: the `while` loop over the cursor. */
  method GenerateTimeSlots(start: int, end: int) returns (slots: seq<Slot>)
    ensures slots == HourlySlots(start, end)
    ensures |slots| == WholeHours(start, end)
    ensures forall k :: 0 <= k < |slots| ==> slots[k] == Slot(start + k * Hour, start + (k + 1) * Hour)
  {
    slots := [];
    var cursor := start;
    while cursor < end
      invariant slots + HourlySlots(cursor, end) == HourlySlots(start, end)
      decreases end - cursor
    {
      var slotEnd := cursor + Hour;
      if slotEnd <= end {
        slots := slots + [Slot(cursor, slotEnd)];
      }
      cursor := cursor + Hour;
    }
    HourlySlotsShape(start, end);
  }

  /** The label of a slot, `"<start> - <end>"`, from the two formatted times. */
  function SlotLabel(startText: string, endText: string): string {
    startText + " - " + endText
  }

  /** `slot.split(' - ')` gives back the two formatted times, when neither contains a `-`
      (a formatted time such as "09:00 AM" does not). */
  lemma SlotLabelSplits(startText: string, endText: string)
    requires '-' !in startText && '-' !in endText
    ensures Split(SlotLabel(startText, endText), " - ") == [startText, endText]
  {
    DelimitsWithoutSecondChar(startText, " - ");
    DelimitsWithoutSecondChar(endText, " - ");
    SplitJoin([startText, endText], " - ");
    assert [startText, endText][1..] == [endText];
  }

  /** A time that itself ends in `" -"` is cut in the wrong place, so the absence of `" - "`
      inside the times alone would not be enough. */
  lemma TrailingDashBreaksSplit()
    ensures Split(SlotLabel("9 -", "10"), " - ") != ["9 -", "10"]
  {
    var joined := SlotLabel("9 -", "10");
    assert joined[1..4] == " - ";
    assert SepAt(joined, " - ", 1);
    assert IndexOf(joined, " - ", 0) == Some(1) by {
      assert !SepAt(joined, " - ", 0) by { assert joined[0] == '9'; }
    }
    assert Split(joined, " - ")[0] == "9";
  }

  /** The test at the heart of `filterBookedSlots`, as written: the slot's start falls in the
      job, or the slot's end falls in the job's range `(start, end]`. */
  predicate IsBooked(slot: Slot, job: Job) {
    || (slot.start >= job.scheduledStart && slot.start < job.scheduledEnd)
    || (slot.end > job.scheduledStart && slot.end <= job.scheduledEnd)
  }

  /** Half-open overlap: the slot and the job share an instant. */
  predicate Overlaps(slot: Slot, job: Job) {
    slot.start < job.scheduledEnd && job.scheduledStart < slot.end
  }

  /** No job hits the slot. */
  predicate Free(slot: Slot, jobs: seq<Job>, booked: (Slot, Job) -> bool) {
    forall job :: job in jobs ==> !booked(slot, job)
  }

  /** `slots.filter(slot => !jobs.some(job => booked(slot, job)))`: a slot is kept exactly when
      no job hits it, and then every copy of it is kept. */
  function FilterSlots(slots: seq<Slot>, jobs: seq<Job>, booked: (Slot, Job) -> bool): (r: seq<Slot>)
    ensures forall s :: s in r <==> s in slots && Free(s, jobs, booked)
    ensures forall s :: multiset(r)[s] == if Free(s, jobs, booked) then multiset(slots)[s] else 0
    decreases |slots|
  {
    if slots == [] then []
    else
      var head := if Free(slots[0], jobs, booked) then [slots[0]] else [];
      assert slots == [slots[0]] + slots[1..];
      head + FilterSlots(slots[1..], jobs, booked)
  }

  /** The filter keeps the order of the slots it keeps. */
  lemma {:induction false} FilterSlotsKeepsOrder(slots: seq<Slot>, jobs: seq<Job>, booked: (Slot, Job) -> bool)
    ensures IsSubsequence(FilterSlots(slots, jobs, booked), slots)
    decreases |slots|
  {
    if slots != [] {
      var rest := FilterSlots(slots[1..], jobs, booked);
      FilterSlotsKeepsOrder(slots[1..], jobs, booked);
      if !Free(slots[0], jobs, booked) {
        assert FilterSlots(slots, jobs, booked) == rest;
        SubsequenceCons(rest, slots[1..], slots[0]);
        assert [slots[0]] + slots[1..] == slots;
      } else {
        assert FilterSlots(slots, jobs, booked) == [slots[0]] + rest;
        assert ([slots[0]] + rest)[1..] == rest;
      }
    }
  }

  /** With no jobs every slot is kept. */
  lemma {:induction false} FilterSlotsWithoutJobs(slots: seq<Slot>, booked: (Slot, Job) -> bool)
    ensures FilterSlots(slots, [], booked) == slots
    decreases |slots|
  {
    if slots != [] {
      FilterSlotsWithoutJobs(slots[1..], booked);
      assert [slots[0]] + slots[1..] == slots;
    }
  }

  /** `filterBookedSlots`, as written. */
  function FilterBookedSlots(slots: seq<Slot>, jobs: seq<Job>): seq<Slot> {
    FilterSlots(slots, jobs, IsBooked)
  }

  /** The slots free of every job under half-open overlap: what the filter evidently means. */
  function AvailableSlots(slots: seq<Slot>, jobs: seq<Job>): seq<Slot> {
    FilterSlots(slots, jobs, Overlaps)
  }

  /** `filterBookedSlots` returns, in order, exactly the slots that no job hits under the
      written test; with no jobs it returns every slot. */
  lemma FilterBookedSlotsKeepsFree(slots: seq<Slot>, jobs: seq<Job>)
    ensures IsSubsequence(FilterBookedSlots(slots, jobs), slots)
    ensures forall s :: s in FilterBookedSlots(slots, jobs) <==>
      s in slots && Free(s, jobs, IsBooked)
    ensures forall s :: multiset(FilterBookedSlots(slots, jobs))[s] == if Free(s, jobs, IsBooked) then multiset(slots)[s] else 0
    ensures FilterBookedSlots(slots, []) == slots
  {
    FilterSlotsKeepsOrder(slots, jobs, IsBooked);
    FilterSlotsWithoutJobs(slots, IsBooked);
  }

  /** The written test is sound for a non-empty slot: whatever it reports as booked does
      overlap. It misses exactly the jobs that lie strictly inside the slot. */
  lemma IsBookedExactly(slot: Slot, job: Job)
    requires slot.start < slot.end
    ensures IsBooked(slot, job) ==> Overlaps(slot, job)
    ensures IsBooked(slot, job) <==>
      Overlaps(slot, job) && !(slot.start < job.scheduledStart && job.scheduledEnd < slot.end)
  {
  }

  /** Touching endpoints are free: a slot that ends where the job starts, or starts where it
      ends, is not booked. */
  lemma TouchingIsFree(slot: Slot, job: Job)
    requires slot.start < slot.end
    requires slot.end == job.scheduledStart || slot.start == job.scheduledEnd
    ensures !IsBooked(slot, job) && !Overlaps(slot, job)
  {
  }

  /** The written test misses a job strictly inside a slot: the slot `[0, 60)` stays
      available next to the job `[10, 20)`, though the two overlap. */
  lemma NestedJobMissed()
    ensures Overlaps(Slot(0, 60), Job("j", 10, 20)) && !IsBooked(Slot(0, 60), Job("j", 10, 20))
    ensures FilterBookedSlots([Slot(0, 60)], [Job("j", 10, 20)]) == [Slot(0, 60)]
    ensures AvailableSlots([Slot(0, 60)], [Job("j", 10, 20)]) == []
  {
    var slot, job := Slot(0, 60), Job("j", 10, 20);
    assert job in [job] && Overlaps(slot, job);
  }

  /** The corrected filter keeps, in order and with every copy, exactly the slots that overlap
      no job; it keeps no slot, nor copy of one, that the written filter drops. */
  lemma AvailableSlotsExact(slots: seq<Slot>, jobs: seq<Job>)
    requires forall s :: s in slots ==> s.start < s.end
    ensures IsSubsequence(AvailableSlots(slots, jobs), slots)
    ensures forall s :: s in AvailableSlots(slots, jobs) <==>
      s in slots && Free(s, jobs, Overlaps)
    ensures forall s :: multiset(AvailableSlots(slots, jobs))[s] == if Free(s, jobs, Overlaps) then multiset(slots)[s] else 0
    ensures multiset(AvailableSlots(slots, jobs)) <= multiset(FilterBookedSlots(slots, jobs))
  {
    FilterSlotsKeepsOrder(slots, jobs, Overlaps);
    var kept, written := AvailableSlots(slots, jobs), FilterBookedSlots(slots, jobs);
    forall s | s in slots && Free(s, jobs, Overlaps)
      ensures Free(s, jobs, IsBooked)
    {
      forall job | job in jobs
        ensures !IsBooked(s, job)
      {
        IsBookedExactly(s, job);
      }
    }
    forall s
      ensures multiset(kept)[s] <= multiset(written)[s]
    {
      if s !in slots {
        assert multiset(slots)[s] == 0;
      }
    }
  }
}
