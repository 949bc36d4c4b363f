/**
 * The web service's display path: its own rotation helper, the topic
 * placeholder substitution, and the partial-update demonstration that
 * repaints the IT8951 frame buffer with a full and then a partial refresh.
 * The module-level `display` and the configuration values are passed in
 * as parameters.
 */
module App {
  import opened Device
  import Rotation
  import PyStr

  /** The fill value of a white frame buffer. */
  const White := 0xFF

  /**
   * `set_rotate` of the service: the same float test as the screen driver,
   * so the configured angles 90 and 270 (modulo 360) swap width and height
   * and 0 and 180 do not.
   */
  function SetRotate(width: int, height: int, rotate: int := 0): (r: (int, int))
    ensures rotate % 360 == 90 || rotate % 360 == 270 ==> r == (height, width)
    ensures rotate % 360 == 0 || rotate % 360 == 180 ==> r == (width, height)
    ensures r == Rotation.SetRotate(width, height, rotate)
  {
    Rotation.SwapTestIffOddMultiple(rotate);
    var k := rotate / 360;
    assert rotate == 360 * k + rotate % 360;
    assert rotate % 360 == 90 ==> rotate / 90 == 4 * k + 1;
    assert rotate % 360 == 270 ==> rotate / 90 == 4 * k + 3;
    assert rotate % 360 == 180 ==> rotate / 90 == 4 * k + 2;
    assert rotate % 360 == 0 ==> rotate / 90 == 4 * k;
    if Rotation.SwapTest(rotate) then (height, width) else (width, height)
  }

  /**
   * `replace_device_id_placeholder`: `topic.replace(placeholder, deviceId)`.
   * A topic without the placeholder is returned as it is; otherwise the text
   * between the placeholders is kept, in order, with the device id standing
   * in for each of them. An empty placeholder puts the device id before
   * every character of the topic and once more at its end.
   */
  function ReplaceDeviceIdPlaceholder(topic: string, placeholder: string, deviceId: string): (r: string)
    ensures !PyStr.Occurs(topic, placeholder) ==> r == topic
    ensures placeholder != [] ==> r == PyStr.Join(PyStr.Split(topic, placeholder), deviceId)
    ensures placeholder == [] ==> r == PyStr.Join([[]] + PyStr.Chars(topic) + [[]], deviceId)
    ensures placeholder == [] ==>
              forall i | 0 <= i <= |topic| ::
                PyStr.Slot(i, deviceId) + |deviceId| <= |r|
                && r[PyStr.Slot(i, deviceId) .. PyStr.Slot(i, deviceId) + |deviceId|] == deviceId
    ensures placeholder == [] ==>
              forall i | 0 <= i < |topic| ::
                PyStr.Slot(i, deviceId) + |deviceId| < |r| && r[PyStr.Slot(i, deviceId) + |deviceId|] == topic[i]
    ensures placeholder == deviceId ==> r == topic
  {
    var r := PyStr.Replace(topic, placeholder, deviceId);
    PyStr.ReplaceBySelf(topic, placeholder);
    if placeholder == [] then
      assert PyStr.OccursAt(topic, placeholder, 0);
      PyStr.InsertEverywhereIsJoin(topic, deviceId);
      PyStr.InsertEverywhereContents(topic, deviceId);
      r
    else
      PyStr.ReplaceIsJoinOfSplit(topic, placeholder, deviceId);
      if PyStr.Occurs(topic, placeholder) then r
      else
        PyStr.ReplaceAbsent(topic, placeholder, deviceId);
        r
  }

  /**
   * The calls of `partial_update` on a display of the given size: fill the
   * whole frame buffer with white, draw "partial" left of centre, full
   * GC16 refresh, draw "update" right of centre, partial DU refresh. The
   * offsets are Python's floor division, `-width // 4` and `+width // 4`.
   */
  function PartialUpdateCalls(width: int, height: int): seq<Event>
  {
    [ Paste(White, Box(0, 0, width, height)),
      PlaceText("partial", (-width) / 4),
      DrawFull(GC16),
      PlaceText("update", width / 4),
      DrawPartial(DU) ]
  }

  /** The prefix of the partial-update sequence that a display with the given faults receives. */
  lemma IssuedPartialUpdateCalls(width: int, height: int, faulty: set<Event>)
    ensures var calls := PartialUpdateCalls(width, height);
            Issued(calls, faulty) ==
              if calls[0] in faulty then calls[..1]
              else if calls[1] in faulty then calls[..2]
              else if calls[2] in faulty then calls[..3]
              else if calls[3] in faulty then calls[..4]
              else calls
  {
  }

  /** What `partial_update` writes to the error log. */
  datatype Logged = DisplayIsNone | UpdateFailed(call: Event)

  /**
   * `partial_update`: without a display it logs and returns at once;
   * otherwise it makes the partial-update calls until one raises, logs that
   * failure and returns. It never raises.
   */
  method PartialUpdate(display: Panel?) returns (logged: Option<Logged>)
    modifies display
    ensures display == null ==> logged == Some(DisplayIsNone)
    ensures display != null ==> display.width == old(display.width) && display.height == old(display.height)
    ensures display != null ==>
              display.trace == old(display.trace) + Issued(PartialUpdateCalls(display.width, display.height), display.faulty)
    ensures display != null ==>
              (logged == None <==> Completes(PartialUpdateCalls(display.width, display.height), display.faulty))
  {
    if display == null {
      return Some(DisplayIsNone);
    }
    var width, height := display.width, display.height;
    var calls := PartialUpdateCalls(width, height);
    IssuedPartialUpdateCalls(width, height, display.faulty);
    var raised := display.Invoke(Paste(White, Box(0, 0, width, height)));
    if raised {
      return Some(UpdateFailed(calls[0]));
    }
    raised := display.Invoke(PlaceText("partial", (-width) / 4));
    if raised {
      return Some(UpdateFailed(calls[1]));
    }
    raised := display.Invoke(DrawFull(GC16));
    if raised {
      return Some(UpdateFailed(calls[2]));
    }
    raised := display.Invoke(PlaceText("update", width / 4));
    if raised {
      return Some(UpdateFailed(calls[3]));
    }
    raised := display.Invoke(DrawPartial(DU));
    if raised {
      assert calls[4] in display.faulty;
      return Some(UpdateFailed(calls[4]));
    }
    assert Completes(calls, display.faulty);
    return None;
  }

  /** How `display_image_on_epd` returns to its caller. */
  datatype Response = Returned | HttpException(status: int, detail: string)

  /**
   * `display_image_on_epd`: without a display it raises HTTP 500 "Display
   * not initialized" and touches nothing; otherwise it runs the partial
   * update and returns normally. The image it is given is not used.
   */
  method DisplayImageOnEpd(display: Panel?, image: Image) returns (response: Response)
    modifies display
    ensures display == null ==> response == HttpException(500, "Display not initialized")
    ensures display != null ==> response == Returned
    ensures display != null ==> display.width == old(display.width) && display.height == old(display.height)
    ensures display != null ==>
              display.trace == old(display.trace) + Issued(PartialUpdateCalls(display.width, display.height), display.faulty)
  {
    if display == null {
      return HttpException(500, "Display not initialized");
    }
    var _ := PartialUpdate(display);
    return Returned;
  }

  /**
   * Whatever faults the display has, the calls it receives start with the
   * white fill of the whole buffer, the full refresh comes before the
   * partial one, each refresh happens at most once, and the partial refresh
   * happens only after a full one.
   */
  lemma FullRefreshPrecedesPartial(width: int, height: int, faulty: set<Event>)
    ensures var r := Issued(PartialUpdateCalls(width, height), faulty);
            && r != [] && r[0] == Paste(White, Box(0, 0, width, height))
            && (forall i, j | 0 <= i < |r| && 0 <= j < |r| && r[i].DrawFull? && r[j].DrawPartial? :: i < j)
            && (forall i, j | 0 <= i < |r| && 0 <= j < |r| && r[i].DrawFull? && r[j].DrawFull? :: i == j)
            && (forall i, j | 0 <= i < |r| && 0 <= j < |r| && r[i].DrawPartial? && r[j].DrawPartial? :: i == j)
            && (DrawPartial(DU) in r ==> DrawFull(GC16) in r)
  {
    IssuedPartialUpdateCalls(width, height, faulty);
  }
}
