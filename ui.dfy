/** The touch screen front end: the screen state machine of
    Core/Src/menu.c and the diagnostics screen's button router of
    Core/Src/diag.c.

    Drawing routines (`_MainShow`, `MAP_Show`, `DIAG_Show`), the buzzer and
    the diagnostics requests are recorded as the calls made, in order. The
    touch controller's latch of Core/Src/XPT2046.c is modelled because
    `MENU_HandleTouch` consumes it; the position the controller reports and
    `HAL_GetTick` are parameters. */
module Ui {
  import opened Wire
  import SampleMap
  import Records

  datatype Screen = MainScreen | MapScreen | DiagScreen

  /** An axis-aligned rectangle of the 480 x 320 display, in pixels. */
  datatype Rect = Rect(x: nat, y: nat, w: nat, h: nat)
  {
    /** The comparison chain the firmware writes for a button. */
    predicate Contains(px: u16, py: u16)
    {
      x <= px < x + w && y <= py < y + h
    }
  }

  const ILI9488_WIDTH: nat := 320
  const ILI9488_HEIGHT: nat := 480

  /** The DIAG button of the main screen. */
  const MENU_BUTTON_DIAG := Rect(5, ILI9488_WIDTH - 55, 67, 45)

  // ---------------------------------------------------------------------
  // menu.c

  /** `_MainTouch`: a touch on the DIAG button opens the diagnostics
      screen, any other touch opens the map. */
  function MainTarget(x: u16, y: u16): (s: Screen)
    ensures s != MainScreen
  {
    if MENU_BUTTON_DIAG.Contains(x, y) then DiagScreen else MapScreen
  }

  /** The DIAG button covers x in [5, 72) and y in [265, 310); every other
      point of the main screen opens the map. */
  lemma MainTargetRegion(x: u16, y: u16)
    ensures MainTarget(x, y) == DiagScreen <==> 5 <= x < 72 && 265 <= y < 310
    ensures MainTarget(x, y) == MapScreen <==> !(5 <= x < 72 && 265 <= y < 310)
  {
  }

  /** `menu_screen` and `menu_screen_initialized`. */
  datatype MenuView = MenuView(screen: Screen, initialized: bool)

  /** `MENU_SetScreen`. */
  function Switched(v: MenuView, s: Screen): (r: MenuView)
    ensures r.screen == s && !r.initialized
  {
    MenuView(s, false)
  }

  /** `MENU_UpdateScreen` on the state: the screen's show routine runs when
      the screen is not initialised yet, and the screen is initialised
      afterwards. The result is the new state and whether it showed. */
  function Update(v: MenuView): (r: (MenuView, bool))
    ensures r.0.screen == v.screen && r.0.initialized
    ensures r.1 == !v.initialized
  {
    (v.(initialized := true), !v.initialized)
  }

  /** How many show routines `n` calls of `MENU_UpdateScreen` run. */
  function ShowsIn(v: MenuView, n: nat): nat
    decreases n
  {
    if n == 0 then 0 else (if Update(v).1 then 1 else 0) + ShowsIn(Update(v).0, n - 1)
  }

  /** After `MENU_SetScreen`, any run of one or more updates shows the new
      screen exactly once: the show routine runs at most once per screen
      change. */
  lemma {:induction false} ShowOncePerSetScreen(v: MenuView, s: Screen, n: nat)
    ensures ShowsIn(Switched(v, s), n) == if n == 0 then 0 else 1
  {
    if n > 0 {
      InitializedShowsNothing(Update(Switched(v, s)).0, n - 1);
    }
  }

  /** An initialised screen is never shown again by updates alone. */
  lemma {:induction false} InitializedShowsNothing(v: MenuView, n: nat)
    requires v.initialized
    ensures ShowsIn(v, n) == 0
    decreases n
  {
    if n > 0 {
      InitializedShowsNothing(Update(v).0, n - 1);
    }
  }

  // ---------------------------------------------------------------------
  // diag.c

  datatype Button = Health | Device | Rate | Close

  const DIAG_BUTTON_CLOSE := Rect(ILI9488_HEIGHT - 50, 20, 24, 24)
  const DIAG_BUTTON_HEALTH := Rect(90, 70, 100, 45)
  const DIAG_BUTTON_DEVICE := Rect(189, 70, 100, 45)
  const DIAG_BUTTON_SAMPLE := Rect(288, 70, 101, 45)

  const DIAG_BUTTON_DEBOUNCE_TIMER: nat := 1000

  function RectOf(b: Button): Rect
  {
    match b
    case Health => DIAG_BUTTON_HEALTH
    case Device => DIAG_BUTTON_DEVICE
    case Rate => DIAG_BUTTON_SAMPLE
    case Close => DIAG_BUTTON_CLOSE
  }

  /** The order in which `DIAG_Touch` tests the buttons. */
  function Rank(b: Button): nat
  {
    match b
    case Health => 0
    case Device => 1
    case Rate => 2
    case Close => 3
  }

  /** The `if ... else if` chain of `DIAG_Touch`: the first button, in the
      order health, device, rate, close, whose rectangle holds the touch. */
  function DiagHit(x: u16, y: u16): (r: Option<Button>)
    ensures r.Some? ==> RectOf(r.value).Contains(x, y)
    ensures r == None <==>
      !DIAG_BUTTON_HEALTH.Contains(x, y) && !DIAG_BUTTON_DEVICE.Contains(x, y)
      && !DIAG_BUTTON_SAMPLE.Contains(x, y) && !DIAG_BUTTON_CLOSE.Contains(x, y)
  {
    if DIAG_BUTTON_HEALTH.Contains(x, y) then Some(Health)
    else if DIAG_BUTTON_DEVICE.Contains(x, y) then Some(Device)
    else if DIAG_BUTTON_SAMPLE.Contains(x, y) then Some(Rate)
    else if DIAG_BUTTON_CLOSE.Contains(x, y) then Some(Close)
    else None
  }

  /** First match wins: a touch goes to button `b` exactly when `b`'s
      rectangle holds it and no button tested earlier does; it goes to no
      button exactly when no rectangle holds it. */
  lemma DiagHitFirstMatch(x: u16, y: u16, b: Button)
    ensures DiagHit(x, y) == Some(b) <==>
      RectOf(b).Contains(x, y) && forall c :: Rank(c) < Rank(b) ==> !RectOf(c).Contains(x, y)
    ensures DiagHit(x, y) == None <==> forall c :: !RectOf(c).Contains(x, y)
  {
    if DiagHit(x, y) == None {
      forall c
        ensures !RectOf(c).Contains(x, y)
      {
      }
    }
    if DiagHit(x, y).Some? {
      assert RectOf(DiagHit(x, y).value).Contains(x, y);
    }
    if RectOf(b).Contains(x, y) && forall c :: Rank(c) < Rank(b) ==> !RectOf(c).Contains(x, y) {
      assert Rank(b) > 0 ==> !RectOf(Health).Contains(x, y);
      assert Rank(b) > 1 ==> !RectOf(Device).Contains(x, y);
      assert Rank(b) > 2 ==> !RectOf(Rate).Contains(x, y);
    }
  }

  /** Neighbouring buttons share a column of pixels: x = 189 lies in both
      HEALTH and DEVICE and goes to HEALTH; x = 288 lies in both DEVICE and
      RATE and goes to DEVICE. */
  lemma SharedColumns(y: u16)
    requires 70 <= y < 115
    ensures DIAG_BUTTON_HEALTH.Contains(189, y) && DIAG_BUTTON_DEVICE.Contains(189, y)
    ensures DiagHit(189, y) == Some(Health)
    ensures DIAG_BUTTON_DEVICE.Contains(288, y) && DIAG_BUTTON_SAMPLE.Contains(288, y)
    ensures DiagHit(288, y) == Some(Device)
  {
  }

  /** CLOSE overlaps no other button: a touch goes to it exactly inside
      [430, 454) x [20, 44). */
  lemma CloseRegion(x: u16, y: u16)
    ensures DiagHit(x, y) == Some(Close) <==> 430 <= x < 454 && 20 <= y < 44
  {
  }

  /** `tick_cur - tick_pressed` on `uint32_t`. */
  function Elapsed(now: u32, last: u32): (e: u32)
  {
    (now - last) % 0x1_0000_0000
  }

  /** The wrapping difference is the time since `last` when it is at most
      `now`, and measures across the wrap of the 32-bit tick otherwise. */
  lemma ElapsedWraps(now: u32, last: u32)
    ensures last <= now ==> Elapsed(now, last) == now - last
    ensures now < last ==> Elapsed(now, last) == now + 0x1_0000_0000 - last
  {
  }

  /** The four `tick_pressed` statics, one per button. */
  datatype Ticks = Ticks(health: u32, device: u32, rate: u32, close: u32)
  {
    function Get(b: Button): u32
    {
      match b
      case Health => health
      case Device => device
      case Rate => rate
      case Close => close
    }

    function Set(b: Button, t: u32): (r: Ticks)
      ensures r.Get(b) == t
      ensures forall c :: c != b ==> r.Get(c) == Get(c)
    {
      match b
      case Health => this.(health := t)
      case Device => this.(device := t)
      case Rate => this.(rate := t)
      case Close => this.(close := t)
    }
  }

  /** Every `tick_pressed` starts at 0. */
  const StartTicks := Ticks(0, 0, 0, 0)

  /** `DIAG_Touch` on the timestamps: the button hit, unless it was pressed
      less than 1000 ticks ago, takes `now` as its timestamp and is the
      accepted press. */
  function DiagPress(t: Ticks, x: u16, y: u16, now: u32): (res: (Ticks, Option<Button>))
    ensures res.1.Some? ==> res.1 == DiagHit(x, y) && res.0 == t.Set(res.1.value, now)
    ensures res.1.Some? ==> Elapsed(now, t.Get(res.1.value)) >= DIAG_BUTTON_DEBOUNCE_TIMER
    ensures res.1 == None ==> res.0 == t
  {
    match DiagHit(x, y)
    case None => (t, None)
    case Some(b) => if Elapsed(now, t.Get(b)) < DIAG_BUTTON_DEBOUNCE_TIMER then (t, None) else (t.Set(b, now), Some(b))
  }

  /** A press is accepted exactly when it hits a button that was last
      pressed at least 1000 ticks ago (modulo 2^32); the accepted button
      alone takes the new timestamp and the other buttons keep theirs.
      Otherwise, in particular outside every button, nothing changes. */
  lemma DiagPressSpec(t: Ticks, x: u16, y: u16, now: u32)
    ensures var (t', r) := DiagPress(t, x, y, now);
      && (r.Some? <==> DiagHit(x, y).Some? && Elapsed(now, t.Get(DiagHit(x, y).value)) >= DIAG_BUTTON_DEBOUNCE_TIMER)
      && (r.Some? ==>
            r == DiagHit(x, y) && t'.Get(r.value) == now
            && forall c :: c != r.value ==> t'.Get(c) == t.Get(c))
      && (r.None? ==> t' == t)
  {
  }

  /** From start-up, no button reacts before tick 1000. */
  lemma NoPressBeforeTick1000(x: u16, y: u16, now: u32)
    requires now < DIAG_BUTTON_DEBOUNCE_TIMER
    ensures DiagPress(StartTicks, x, y, now) == (StartTicks, None)
  {
    ElapsedWraps(now, 0);
  }

  /** Right after an accepted press, the same button ignores presses for
      the next 999 ticks, even when the 32-bit tick wraps in between. */
  lemma DebounceHolds(t: Ticks, x: u16, y: u16, now: u32, later: u32)
    requires DiagPress(t, x, y, now).1.Some?
    requires (later - now) % 0x1_0000_0000 < DIAG_BUTTON_DEBOUNCE_TIMER
    ensures var t' := DiagPress(t, x, y, now).0; DiagPress(t', x, y, later) == (t', None)
  {
  }

  // ---------------------------------------------------------------------
  // The statics

  /** The latch `touched` of the touch controller, set by its interrupt. */
  class TouchPanel {
    var touched: bool

    constructor (touched: bool)
      ensures this.touched == touched
    {
      this.touched := touched;
    }

    /** `XPT2046_GotATouch`: report the latch and clear it. */
    method GotATouch() returns (result: bool)
      modifies this
      ensures result == old(touched) && !touched
    {
      result := touched;
      touched := false;
    }
  }

  /** The four `tick_pressed` statics of `DIAG_Touch` and the presses it
      acted on. */
  class Diag {
    var healthTick: u32
    var deviceTick: u32
    var rateTick: u32
    var closeTick: u32
    /** Each accepted press: the buzzer and the button's action. */
    var accepted: seq<Button>

    function Stamps(): Ticks
      reads this
    {
      Ticks(healthTick, deviceTick, rateTick, closeTick)
    }

    constructor ()
      ensures Stamps() == StartTicks && accepted == []
    {
      healthTick, deviceTick, rateTick, closeTick := 0, 0, 0, 0;
      accepted := [];
    }

    /** `DIAG_Touch` at tick `now`: the timestamps move as `DiagPress`
        says, an accepted press is recorded, and an accepted CLOSE sets the
        menu's screen to MAIN. */
    method Touch(menu: Menu, x: u16, y: u16, now: u32)
      modifies this, menu`screen, menu`initialized
      ensures var (t, r) := DiagPress(old(Stamps()), x, y, now);
        && Stamps() == t
        && accepted == old(accepted) + (if r.Some? then [r.value] else [])
        && (r == Some(Close) ==> menu.View() == Switched(old(menu.View()), MainScreen))
        && (r != Some(Close) ==> menu.View() == old(menu.View()))
    {
      if DIAG_BUTTON_HEALTH.x <= x < DIAG_BUTTON_HEALTH.x + DIAG_BUTTON_HEALTH.w
         && DIAG_BUTTON_HEALTH.y <= y < DIAG_BUTTON_HEALTH.y + DIAG_BUTTON_HEALTH.h {
        if (now - healthTick) % 0x1_0000_0000 < DIAG_BUTTON_DEBOUNCE_TIMER {
          return;
        }
        healthTick := now;
        accepted := accepted + [Health];
      } else if DIAG_BUTTON_DEVICE.x <= x < DIAG_BUTTON_DEVICE.x + DIAG_BUTTON_DEVICE.w
         && DIAG_BUTTON_DEVICE.y <= y < DIAG_BUTTON_DEVICE.y + DIAG_BUTTON_DEVICE.h {
        if (now - deviceTick) % 0x1_0000_0000 < DIAG_BUTTON_DEBOUNCE_TIMER {
          return;
        }
        deviceTick := now;
        accepted := accepted + [Device];
      } else if DIAG_BUTTON_SAMPLE.x <= x < DIAG_BUTTON_SAMPLE.x + DIAG_BUTTON_SAMPLE.w
         && DIAG_BUTTON_SAMPLE.y <= y < DIAG_BUTTON_SAMPLE.y + DIAG_BUTTON_SAMPLE.h {
        if (now - rateTick) % 0x1_0000_0000 < DIAG_BUTTON_DEBOUNCE_TIMER {
          return;
        }
        rateTick := now;
        accepted := accepted + [Rate];
      } else if DIAG_BUTTON_CLOSE.x <= x < DIAG_BUTTON_CLOSE.x + DIAG_BUTTON_CLOSE.w
         && DIAG_BUTTON_CLOSE.y <= y < DIAG_BUTTON_CLOSE.y + DIAG_BUTTON_CLOSE.h {
        if (now - closeTick) % 0x1_0000_0000 < DIAG_BUTTON_DEBOUNCE_TIMER {
          return;
        }
        closeTick := now;
        accepted := accepted + [Close];
        menu.SetScreen(MainScreen);
      }
    }
  }

  /** The statics of menu.c, with the diagnostics statics and the map it
      drives. */
  class Menu {
    var screen: Screen
    var initialized: bool
    /** The show routine calls made, oldest first. */
    var shown: seq<Screen>
    /** The positions handed to `MAP_Touch`. */
    var mapTouches: seq<(u16, u16)>
    const diag: Diag
    const ring: SampleMap.MapState

    function View(): MenuView
      reads this
    {
      MenuView(screen, initialized)
    }

    predicate Valid()
      reads this, ring
    {
      ring.Valid()
    }

    /** The statics' initial values: the main screen, not yet shown. */
    constructor (diag: Diag, ring: SampleMap.MapState)
      ensures View() == MenuView(MainScreen, false) && shown == [] && mapTouches == []
      ensures this.diag == diag && this.ring == ring
    {
      screen := MainScreen;
      initialized := false;
      shown := [];
      mapTouches := [];
      this.diag := diag;
      this.ring := ring;
    }

    /** `MENU_SetScreen`. */
    method SetScreen(s: Screen)
      modifies this`screen, this`initialized
      ensures View() == Switched(old(View()), s)
    {
      screen := s;
      initialized := false;
    }

    /** `MENU_UpdateScreen`: show the current screen if it is not
        initialised yet, then mark it initialised; on the map screen, also
        draw the pending samples. */
    method UpdateScreen(convert: Records.Measurement -> SampleMap.Point)
      requires Valid()
      modifies this`initialized, this`shown, ring, ring.points
      ensures Valid()
      ensures View() == Update(old(View())).0
      ensures shown == old(shown) + (if Update(old(View())).1 then [screen] else [])
      ensures screen == MapScreen ==>
        && ring.count == 0
        && ring.readIdx == SampleMap.Slot(old(ring.readIdx), old(ring.count))
        && ring.writeIdx == old(ring.writeIdx) && ring.qualityMin == old(ring.qualityMin)
        && (old(ring.Coherent()) ==> ring.Coherent())
        && ring.Screen() == SampleMap.PlotAll(old(ring.Screen()), old(ring.Pending()), convert)
      ensures screen != MapScreen ==> unchanged(ring, ring.points)
    {
      match screen
      case MainScreen =>
        if !initialized {
          shown := shown + [MainScreen];
          initialized := true;
        }
      case MapScreen =>
        if !initialized {
          shown := shown + [MapScreen];
          initialized := true;
        }
        ring.DrawSamples(convert);
      case DiagScreen =>
        if !initialized {
          shown := shown + [DiagScreen];
          initialized := true;
        }
    }

    /** `MENU_HandleTouch` at tick `now`, with `position` what
        `XPT2046_GetTouchPosition` reports (nothing when the pressure or a
        coordinate reads below its threshold). The latch is consumed in any
        case; only a latched touch with a position reaches the current
        screen's handler. */
    method HandleTouch(panel: TouchPanel, position: Option<(u16, u16)>, now: u32)
      modifies this, panel, diag
      ensures !panel.touched
      ensures !(old(panel.touched) && position.Some?) ==>
        View() == old(View()) && mapTouches == old(mapTouches) && unchanged(diag)
      ensures old(panel.touched) && position.Some? ==>
        var (x, y) := position.value;
        match old(screen)
        case MainScreen =>
          View() == Switched(old(View()), MainTarget(x, y)) && mapTouches == old(mapTouches) && unchanged(diag)
        case MapScreen =>
          View() == old(View()) && mapTouches == old(mapTouches) + [(x, y)] && unchanged(diag)
        case DiagScreen =>
          var (t, r) := DiagPress(old(diag.Stamps()), x, y, now);
          && diag.Stamps() == t
          && diag.accepted == old(diag.accepted) + (if r.Some? then [r.value] else [])
          && View() == (if r == Some(Close) then Switched(old(View()), MainScreen) else old(View()))
          && mapTouches == old(mapTouches)
      ensures shown == old(shown)
    {
      var touch := panel.GotATouch();
      if touch && position.Some? {
        var (x, y) := position.value;
        match screen
        case MainScreen =>
          MainTouch(x, y);
        case MapScreen =>
          mapTouches := mapTouches + [(x, y)];
        case DiagScreen =>
          diag.Touch(this, x, y, now);
      }
    }

    /** `_MainTouch`. */
    method MainTouch(x: u16, y: u16)
      modifies this`screen, this`initialized
      ensures View() == Switched(old(View()), MainTarget(x, y))
    {
      if MENU_BUTTON_DIAG.x <= x < MENU_BUTTON_DIAG.x + MENU_BUTTON_DIAG.w
         && MENU_BUTTON_DIAG.y <= y < MENU_BUTTON_DIAG.y + MENU_BUTTON_DIAG.h {
        SetScreen(DiagScreen);
      } else {
        SetScreen(MapScreen);
      }
    }
  }
}
