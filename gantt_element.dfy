/** `GanttElement` of `src-tauri/src/commands/Task/gantt_element.rs`: the
    schedule part of a task, an optional start and end instant and a
    progress counter, rebuilt by each update. */
module GanttElementRecord {
  import opened Basics

  /** Rust's `u32`. */
  type U32 = x: int | 0 <= x < 0x1_0000_0000

  /** An instant, standing for `DateTime<Local>`. */
  type Instant = int

  datatype GanttElement = GanttElement(startDatetime: Option<Instant>, endDatetime: Option<Instant>, progress: U32)

  function Default(): (g: GanttElement)
    ensures g.startDatetime == None && g.endDatetime == None && g.progress == 0
  {
    GanttElement(None, None, 0)
  }

  function UpdateStartTime(g: GanttElement, start: Instant): (r: GanttElement)
    ensures r.startDatetime == Some(start)
    ensures r.endDatetime == g.endDatetime && r.progress == g.progress
  {
    GanttElement(Some(start), g.endDatetime, g.progress)
  }

  function UpdateEndTime(g: GanttElement, end: Instant): (r: GanttElement)
    ensures r.endDatetime == Some(end)
    ensures r.startDatetime == g.startDatetime && r.progress == g.progress
  {
    GanttElement(g.startDatetime, Some(end), g.progress)
  }

  function UpdateProgress(g: GanttElement, progress: U32): (r: GanttElement)
    ensures r.progress == progress
    ensures r.startDatetime == g.startDatetime && r.endDatetime == g.endDatetime
  {
    GanttElement(g.startDatetime, g.endDatetime, progress)
  }

  /** Updates of different fields commute. */
  lemma UpdatesCommute(g: GanttElement, start: Instant, end: Instant, progress: U32)
    ensures UpdateEndTime(UpdateStartTime(g, start), end) == UpdateStartTime(UpdateEndTime(g, end), start)
    ensures UpdateProgress(UpdateStartTime(g, start), progress) == UpdateStartTime(UpdateProgress(g, progress), start)
    ensures UpdateProgress(UpdateEndTime(g, end), progress) == UpdateEndTime(UpdateProgress(g, progress), end)
  {
  }

  /** A second update of the same field overrides the first. */
  lemma LastUpdateWins(g: GanttElement, a: Instant, b: Instant, p: U32, q: U32)
    ensures UpdateStartTime(UpdateStartTime(g, a), b) == UpdateStartTime(g, b)
    ensures UpdateEndTime(UpdateEndTime(g, a), b) == UpdateEndTime(g, b)
    ensures UpdateProgress(UpdateProgress(g, p), q) == UpdateProgress(g, q)
  {
  }

  /** Setting all three fields of the default element gives exactly those
      values, in any order. */
  lemma FullySet(start: Instant, end: Instant, progress: U32)
    ensures UpdateProgress(UpdateEndTime(UpdateStartTime(Default(), start), end), progress)
            == GanttElement(Some(start), Some(end), progress)
  {
  }
}
