/**
 * The panel driver as the rest of the system sees it: a test double that
 * records every call made to it, in order, and raises on the calls it was
 * configured to fail. It offers both capability sets the source uses,
 * the lifecycle of the screen driver (prepare, clear, display, sleep, close)
 * and the frame-buffer drawing of the web service (paste, text, full and
 * partial refresh).
 */
module Device {

  datatype Option<T> = None | Some(value: T)

  /** A raster image; its pixels are not inspected by the display path. */
  datatype Image = Image(width: nat, height: nat, pixels: seq<nat>)

  /** The two refresh waveforms of the IT8951 controller used by the service. */
  datatype DisplayMode = GC16 | DU

  /** A rectangle `(left, top, right, bottom)` of the frame buffer. */
  datatype Box = Box(left: int, top: int, right: int, bottom: int)

  /** A call made to the panel or to its frame buffer, with its arguments. */
  datatype Event =
    | Prepare
    | Clear
    | Display(image: Image)
    | Sleep
    | Close
    | Paste(color: int, box: Box)
    | PlaceText(text: string, xOffset: int)
    | DrawFull(mode: DisplayMode)
    | DrawPartial(mode: DisplayMode)

  class Panel {
    /** The dimensions the driver reports; the screen driver overwrites them. */
    var width: int
    var height: int
    /** Every call made so far, oldest first. */
    var trace: seq<Event>
    /** The calls, arguments included, on which this panel raises. */
    const faulty: set<Event>

    constructor (width: int, height: int, faulty: set<Event>)
      ensures this.width == width && this.height == height
      ensures this.faulty == faulty && trace == []
    {
      this.width, this.height := width, height;
      this.faulty := faulty;
      trace := [];
    }

    /** Makes the call `e`; it is recorded, then raises if it is one of the faulty calls. */
    method Invoke(e: Event) returns (raised: bool)
      modifies this`trace
      ensures trace == old(trace) + [e]
      ensures raised <==> e in faulty
    {
      trace := trace + [e];
      raised := e in faulty;
    }
  }

  /** None of the calls raises. */
  predicate Completes(calls: seq<Event>, faulty: set<Event>)
  {
    forall i | 0 <= i < |calls| :: calls[i] !in faulty
  }

  /**
   * The calls a fixed sequence actually makes when the first raising call
   * aborts the rest: all of them if none raises, otherwise those up to and
   * including the first faulty one.
   */
  function Issued(calls: seq<Event>, faulty: set<Event>): (r: seq<Event>)
    ensures |r| <= |calls| && r == calls[..|r|]
    ensures Completes(calls, faulty) ==> r == calls
    ensures !Completes(calls, faulty) ==>
              |r| > 0 && r[|r| - 1] in faulty && Completes(r[..|r| - 1], faulty)
  {
    if calls == [] then []
    else if calls[0] in faulty then [calls[0]]
    else
      var rest := Issued(calls[1..], faulty);
      assert !Completes(calls, faulty) ==> !Completes(calls[1..], faulty) by {
        if !Completes(calls, faulty) {
          var i :| 0 <= i < |calls| && calls[i] in faulty;
          assert calls[1..][i - 1] == calls[i];
        }
      }
      assert rest != [] ==> ([calls[0]] + rest)[..|rest|] == [calls[0]] + rest[..|rest| - 1];
      [calls[0]] + rest
  }

  /** A sequence is issued to its end exactly when no call before the last one raises. */
  lemma IssuedAllIff(calls: seq<Event>, faulty: set<Event>)
    requires calls != []
    ensures Issued(calls, faulty) == calls <==> Completes(calls[..|calls| - 1], faulty)
  {
    var r, n := Issued(calls, faulty), |calls|;
    if r == calls && !Completes(calls, faulty) {
      assert calls[..n - 1] == r[..|r| - 1];
    }
  }
}
