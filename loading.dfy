/**
 * The progress indicator of a download (`Loading::new` and the
 * `indicatif::ProgressBar` it returns), reduced to its observable state:
 * the mode chosen at creation, the optional length, the position and
 * whether it was finished. Rendering is not modelled.
 */
module Loading {
  import opened Common

  /** An unbounded spinner, or a bar bounded by a known length. */
  datatype Mode = Spinner | Bar

  /** A snapshot of a progress bar's state. */
  datatype Progress = Progress(mode: Mode, length: Option<u64>, position: nat, finished: bool)

  /**
   * The state `Loading::new(total_size)` creates: a spinner exactly when the
   * total is 0, otherwise a bar whose length is the total; nothing done yet.
   */
  function Initial(totalSize: u64): (p: Progress)
    ensures p.mode == Spinner <==> totalSize == 0
    ensures p.mode == Spinner ==> p.length == None
    ensures p.mode == Bar ==> p.length == Some(totalSize)
    ensures p.position == 0 && !p.finished
  {
    match totalSize
    case 0 => Progress(Spinner, None, 0, false)
    case _ => Progress(Bar, Some(totalSize), 0, false)
  }

  /**
   * The state after `finish()`: marked finished, and a bar that has a
   * length is moved to it; a spinner keeps its position.
   */
  function Finished(p: Progress): (q: Progress)
    ensures q.finished && q.mode == p.mode && q.length == p.length
    ensures q.position == if p.length.Some? then p.length.value else p.position
  {
    p.(finished := true, position := if p.length.Some? then p.length.value else p.position)
  }

  class ProgressBar {
    var mode: Mode
    var length: Option<u64>
    var position: nat
    var finished: bool

    function State(): Progress
      reads this
    {
      Progress(mode, length, position, finished)
    }

    /** `ProgressBar::new_spinner()`. */
    constructor NewSpinner()
      ensures State() == Progress(Spinner, None, 0, false)
    {
      mode, length, position, finished := Spinner, None, 0, false;
    }

    /** `ProgressBar::new(len)`. */
    constructor (len: u64)
      ensures State() == Progress(Bar, Some(len), 0, false)
    {
      mode, length, position, finished := Bar, Some(len), 0, false;
    }

    /** `inc(delta)`: advance the position; mode, length and finished stay. */
    method Inc(delta: nat)
      modifies this
      ensures State() == old(State()).(position := old(position) + delta)
    {
      position := position + delta;
    }

    /** `finish()`: mark the progress complete and move a bar to its length; mode and length stay. */
    method Finish()
      modifies this
      ensures State() == Finished(old(State()))
    {
      if length.Some? {
        position := length.value;
      }
      finished := true;
    }

    /**
     * Dropping the bar: one that was not finished is finished as by
     * `finish()` (it is cleared from the screen rather than left, which
     * is not modelled); a finished one stays as it is.
     */
    method Drop()
      modifies this
      ensures State() == if old(finished) then old(State()) else Finished(old(State()))
    {
      if !finished {
        Finish();
      }
    }
  }

  /** `Loading::new`: a fresh spinner for a total of 0, otherwise a fresh bar of that length. */
  method New(totalSize: u64) returns (bar: ProgressBar)
    ensures fresh(bar)
    ensures bar.State() == Initial(totalSize)
  {
    if totalSize == 0 {
      bar := new ProgressBar.NewSpinner();
    } else {
      bar := new ProgressBar(totalSize);
    }
  }
}
