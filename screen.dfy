/**
 * The screen driver `EInkScreen`: its configuration, the start-up step that
 * attaches the panel driver and resolves the dimensions, and the display
 * path that runs the panel through prepare, clear, display, sleep and close.
 */
module Screen {
  import opened Device
  import Rotation

  const DefaultWidth := 1600
  const DefaultHeight := 1200
  const DefaultBrightnessFactor := 1.0
  const DefaultDarknessThreshold := 0.5
  /** The rotation `run` resolves the dimensions with; it is fixed in the source. */
  const ImageRotate := 0

  /** What can go wrong on the display path. */
  datatype Error =
    | DriverNotLoaded   // `self.epd` is still None: `run` never attached a driver
    | DeviceFault(call: Event)

  datatype Outcome = Done | Raised(error: Error)

  /** The panel calls that show `image`, in the order the source makes them. */
  function DisplayCalls(image: Image): seq<Event>
  {
    [Prepare, Clear, Display(image), Sleep, Close]
  }

  /**
   * How a fixed sequence of calls ends: normally if none raises, otherwise
   * with the fault of the first call that raises.
   */
  function SequenceOutcome(calls: seq<Event>, faulty: set<Event>): (r: Outcome)
    ensures r == Done <==> Completes(calls, faulty)
    ensures r.Raised? ==>
              exists i | 0 <= i < |calls| ::
                r.error == DeviceFault(calls[i]) && calls[i] in faulty && Completes(calls[..i], faulty)
  {
    if Completes(calls, faulty) then Done
    else
      var issued := Issued(calls, faulty);
      assert calls[|issued| - 1] == issued[|issued| - 1];
      assert calls[..|issued| - 1] == issued[..|issued| - 1];
      Raised(DeviceFault(issued[|issued| - 1]))
  }

  /** The prefix of the display sequence that a panel with the given faults receives. */
  lemma IssuedDisplayCalls(image: Image, faulty: set<Event>)
    ensures Issued(DisplayCalls(image), faulty) ==
      if Prepare in faulty then [Prepare]
      else if Clear in faulty then [Prepare, Clear]
      else if Display(image) in faulty then [Prepare, Clear, Display(image)]
      else if Sleep in faulty then [Prepare, Clear, Display(image), Sleep]
      else DisplayCalls(image)
  {
    var calls := DisplayCalls(image);
    assert calls[1..] == [Clear, Display(image), Sleep, Close];
    assert calls[2..] == [Display(image), Sleep, Close];
    assert calls[3..] == [Sleep, Close];
    assert calls[4..] == [Close];
    assert calls[1..][1..] == calls[2..] && calls[2..][1..] == calls[3..] && calls[3..][1..] == calls[4..];
    var i4 := Issued(calls[4..], faulty);
    assert i4 == [Close];
    var i3 := Issued(calls[3..], faulty);
    assert i3 == if Sleep in faulty then [Sleep] else [Sleep] + i4;
    var i2 := Issued(calls[2..], faulty);
    assert i2 == if Display(image) in faulty then [Display(image)] else [Display(image)] + i3;
    var i1 := Issued(calls[1..], faulty);
    assert i1 == if Clear in faulty then [Clear] else [Clear] + i2;
  }

  class EInkScreen {
    var configDict: map<string, string>
    var epd: Panel?
    var imageBase: Option<Image>
    var imageDisplay: Option<Image>
    var width: int
    var height: int
    var brightnessFactor: real
    var darknessThreshold: real

    /** `__init__`: nothing is attached yet; the defaults are 1600 x 1200, 1.0 and 0.5. */
    constructor (screenWidth: int := DefaultWidth, screenHeight: int := DefaultHeight,
                 brightnessFactor: real := DefaultBrightnessFactor,
                 darknessThreshold: real := DefaultDarknessThreshold)
      ensures configDict == map[] && epd == null
      ensures imageBase == None && imageDisplay == None
      ensures width == screenWidth && height == screenHeight
      ensures this.brightnessFactor == brightnessFactor
      ensures this.darknessThreshold == darknessThreshold
    {
      configDict := map[];
      epd := null;
      imageBase, imageDisplay := None, None;
      width, height := screenWidth, screenHeight;
      this.brightnessFactor := brightnessFactor;
      this.darknessThreshold := darknessThreshold;
    }

    /**
     * The successful path of `run`: attach the loaded driver, give it the
     * configured dimensions, and resolve the screen's own dimensions from the
     * driver's with rotation 0, which leaves them as configured.
     */
    method Run(driver: Panel)
      modifies this`epd, this`width, this`height, driver`width, driver`height
      ensures epd == driver
      ensures driver.width == old(width) && driver.height == old(height)
      ensures (width, height) == Rotation.SetRotate(driver.width, driver.height, ImageRotate)
      ensures width == old(width) && height == old(height)
    {
      epd := driver;
      driver.width := width;
      driver.height := height;
      var resolved := Rotation.SetRotate(driver.width, driver.height, ImageRotate);
      width, height := resolved.0, resolved.1;
    }

    /**
     * `display_image_on_epd`: keep a copy of the image, then prepare, clear,
     * display the copy, sleep and close the panel. A raising call ends the
     * method with that call's fault and skips the rest, sleep and close
     * included; without a driver nothing reaches a panel.
     */
    method DisplayImageOnEpd(image: Image) returns (outcome: Outcome)
      modifies this`imageDisplay, epd
      ensures imageDisplay == Some(image)
      ensures epd == null ==> outcome == Raised(DriverNotLoaded)
      ensures epd != null ==> epd.width == old(epd.width) && epd.height == old(epd.height)
      ensures epd != null ==> epd.trace == old(epd.trace) + Issued(DisplayCalls(image), epd.faulty)
      ensures epd != null ==> outcome == SequenceOutcome(DisplayCalls(image), epd.faulty)
    {
      imageDisplay := Some(image);
      if epd == null {
        return Raised(DriverNotLoaded);
      }
      var calls := DisplayCalls(image);
      IssuedDisplayCalls(image, epd.faulty);
      var raised := epd.Invoke(Prepare);
      if raised {
        return Raised(DeviceFault(Prepare));
      }
      raised := epd.Invoke(Clear);
      if raised {
        return Raised(DeviceFault(Clear));
      }
      raised := epd.Invoke(Display(imageDisplay.value));
      if raised {
        return Raised(DeviceFault(Display(image)));
      }
      raised := epd.Invoke(Sleep);
      if raised {
        return Raised(DeviceFault(Sleep));
      }
      raised := epd.Invoke(Close);
      if raised {
        assert calls[4] in epd.faulty;
        return Raised(DeviceFault(Close));
      }
      assert Completes(calls, epd.faulty);
      return Done;
    }

    /**
     * `display_image`: run the display path and log whatever it raises; no
     * exception leaves this method. The lock and the five-second settle delay
     * around the call are not modelled.
     */
    method DisplayImage(image: Image) returns (logged: Option<Error>)
      modifies this`imageDisplay, epd
      ensures imageDisplay == Some(image)
      ensures epd == null ==> logged == Some(DriverNotLoaded)
      ensures epd != null ==> epd.width == old(epd.width) && epd.height == old(epd.height)
      ensures epd != null ==> epd.trace == old(epd.trace) + Issued(DisplayCalls(image), epd.faulty)
      ensures epd != null ==> (logged == None <==> Completes(DisplayCalls(image), epd.faulty))
      ensures epd != null ==>
                logged == (var o := SequenceOutcome(DisplayCalls(image), epd.faulty);
                           if o.Raised? then Some(o.error) else None)
    {
      var outcome := DisplayImageOnEpd(image);
      logged := if outcome.Raised? then Some(outcome.error) else None;
    }
  }

  /** A failure anywhere before sleep leaves the panel awake and open. */
  lemma FaultBeforeSleepSkipsCleanup(image: Image, faulty: set<Event>)
    requires Prepare in faulty || Clear in faulty || Display(image) in faulty
    ensures Sleep !in Issued(DisplayCalls(image), faulty)
    ensures Close !in Issued(DisplayCalls(image), faulty)
  {
    IssuedDisplayCalls(image, faulty);
  }

  /**
   * On a healthy panel the display path makes exactly the five calls, each
   * once, and displays the very image it was given.
   */
  lemma HealthyPanelRunsFullLifecycle(image: Image, faulty: set<Event>)
    requires faulty == {}
    ensures Issued(DisplayCalls(image), faulty) == [Prepare, Clear, Display(image), Sleep, Close]
  {
  }
}
