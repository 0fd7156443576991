/**
 * The pixel-gated route from the title screen into a saved game (harness/autoload_save.py).
 *
 * A key press may be lost; one that arrives has taken effect by the next screenshot.  What a key does
 * outside the transitions the route is written for is left open.
 */
module LoadRoute {
  import opened Wrappers

  datatype Key = Confirm | Up | Down | Left

  datatype Screen =
    | Title
    | MainMenu(onNewGame: bool)
    | SaveList(row: nat)
    | ConfirmBox(row: nat, onYes: bool)
    | Loaded(row: nat)
    | NewGame
    | Elsewhere(id: nat)

  // ---------------------------------------------------------------- the gates

  /** What the crops of one screenshot measure. */
  datatype Photo = Photo(size: string, newGame: real, loadGame: real, rows: seq<real>, yes: real, no: real, gray: real)

  type Picture = p: Photo | |p.rows| == 10
    witness Photo("", 0.0, 0.0, [0.0, 0.0, 0.0, 0.0, 0.0, 0.0, 0.0, 0.0, 0.0, 0.0], 0.0, 0.0, 0.0)

  datatype Error = WrongSize | NotConfirmed | Ambiguous | NotSelected | AboveFirstSave

  datatype Entry = NewGameEntry | LoadGameEntry

  /**
   * An entry is selected exactly when the screenshot has the size the crops are made for and the entry's
   * marker stands out from the other's.
   */
  function MenuSelection(p: Picture): (r: Result<Option<Entry>, Error>)
    ensures r == Err(WrongSize) <==> p.size != "640x480"
    ensures r.Err? <==> p.size != "640x480"
    ensures p.size == "640x480" ==>
      && (r == Ok(Some(NewGameEntry)) <==> StandsOut([p.newGame, p.loadGame], 0))
      && (r == Ok(Some(LoadGameEntry)) <==> StandsOut([p.newGame, p.loadGame], 1))
  {
    assert [p.newGame, p.loadGame][0] == p.newGame && [p.newGame, p.loadGame][1] == p.loadGame;
    if p.size != "640x480" then Err(WrongSize)
    else if p.newGame > p.loadGame + 0.12 && p.newGame > 0.35 then Ok(Some(NewGameEntry))
    else if p.loadGame > p.newGame + 0.12 && p.loadGame > 0.35 then Ok(Some(LoadGameEntry))
    else Ok(None)
  }

  /** The row that sorts first: the largest mean, the earlier of two equal ones. */
  function Best(means: seq<real>): (b: nat)
    requires means != []
    ensures b < |means| && forall i :: 0 <= i < |means| ==> means[i] <= means[b]
  {
    if |means| == 1 then 0
    else
      var last := |means| - 1;
      var b := Best(means[..last]);
      if means[b] < means[last] then last else b
  }

  /** The means without the best one, whose largest is the runner-up. */
  function Others(means: seq<real>, b: nat): (others: seq<real>)
    requires b < |means|
    ensures |others| == |means| - 1
    ensures forall i :: 0 <= i < |means| && i != b ==> means[i] in others
    ensures forall m :: m in others ==> exists i :: 0 <= i < |means| && i != b && means[i] == m
  {
    var others := means[..b] + means[b + 1..];
    assert forall i :: 0 <= i < b ==> means[i] == others[i];
    assert forall i :: b < i < |means| ==> means[i] == others[i - 1];
    others
  }

  predicate StandsOut(means: seq<real>, b: nat) {
    b < |means| && means[b] > 0.35 && forall i :: 0 <= i < |means| && i != b ==> means[b] > means[i] + 0.12
  }

  /** The runner-up decides for all the other rows. */
  lemma BestStandsOutIff(means: seq<real>)
    requires |means| > 1
    ensures var best := Best(means);
      var others := Others(means, best);
      StandsOut(means, best) <==> means[best] > 0.35 && means[best] > others[Best(others)] + 0.12
    ensures forall b: nat :: StandsOut(means, b) ==> b == Best(means)
  {
    var best := Best(means);
    var others := Others(means, best);
    var second := others[Best(others)];
    assert second in others;
    forall i | 0 <= i < |means| && i != best ensures means[i] <= second {
      var j :| 0 <= j < |others| && others[j] == means[i];
    }
  }

  /** A row is selected exactly when it is bright and stands out from every other row. */
  function SaveSelection(p: Picture): (r: Option<nat>)
    ensures forall b: nat :: r == Some(b) <==> StandsOut(p.rows, b)
  {
    var best := Best(p.rows);
    var others := Others(p.rows, best);
    var second := others[Best(others)];
    BestStandsOutIff(p.rows);
    if p.rows[best] > 0.35 && p.rows[best] > second + 0.12 then Some(best) else None
  }

  /** The words' own margins; at most one of the two stands out. */
  function YesNoSelection(p: Picture): (r: Option<bool>)
    ensures r == Some(true) <==> p.yes > 0.06 && p.yes - p.no > 0.02
    ensures r == Some(false) <==> p.no > 0.04 && p.no - p.yes > 0.02
  {
    if p.yes > p.no + 0.02 && p.yes > 0.06 then Some(true)
    else if p.no > p.yes + 0.02 && p.no > 0.04 then Some(false)
    else None
  }

  predicate Dark(p: Picture) { p.gray < 0.15 }

  // ---------------------------------------------------------------- the game

  /**
   * One run's circumstances: what the n-th screenshot of each screen looks like, which presses
   * arrive, where the save list opens, and what other presses do.
   */
  datatype World = World(
    camera: (nat, Screen) -> Picture,
    arrives: nat -> bool,
    firstRow: nat,
    wild: (Screen, Key) -> Screen)

  /** The transitions the route is written for; any other press does what it does. */
  function Next(w: World, s: Screen, k: Key): Screen {
    match (s, k)
    case (Title, Confirm) => MainMenu(true)
    case (MainMenu(true), Down) => MainMenu(false)
    case (MainMenu(true), Confirm) => NewGame
    case (MainMenu(false), Confirm) => SaveList(w.firstRow)
    case (SaveList(row), Up) => if row > 0 then SaveList(row - 1) else w.wild(s, k)
    case (SaveList(row), Confirm) => ConfirmBox(row, false)
    case (ConfirmBox(row, false), Left) => ConfirmBox(row, true)
    case (ConfirmBox(row, true), Confirm) => Loaded(row)
    case _ => w.wild(s, k)
  }

  /** No gate sees what is not there. */
  ghost predicate Sound(w: World) {
    forall n: nat, s: Screen :: SoundOf(w.camera(n, s), s)
  }

  predicate SoundOf(p: Picture, s: Screen) {
    && (MenuSelection(p) == Ok(Some(NewGameEntry)) ==> s == MainMenu(true))
    && (MenuSelection(p) == Ok(Some(LoadGameEntry)) ==> s == MainMenu(false))
    && (SaveSelection(p).Some? ==> s == SaveList(SaveSelection(p).value))
    && (YesNoSelection(p) == Some(true) ==> s.ConfirmBox? && s.onYes)
    && (YesNoSelection(p) == Some(false) ==> s.ConfirmBox? && !s.onYes)
    && (p.gray >= 0.15 ==> !s.ConfirmBox?)
  }

  /** The n-th screenshot of the main menu, with NEW GAME selected, passes for neither entry. */
  predicate Misses(w: World, n: nat) {
    MenuSelection(w.camera(n, MainMenu(true))) == Ok(None)
  }

  /** Every gate sees what is there. */
  ghost predicate Complete(w: World) {
    forall n: nat, s: Screen :: CompleteOf(w.camera(n, s), s)
  }

  predicate CompleteOf(p: Picture, s: Screen) {
    && MenuSelection(p).Ok?
    && (s == MainMenu(true) ==> MenuSelection(p) == Ok(Some(NewGameEntry)))
    && (s == MainMenu(false) ==> MenuSelection(p) == Ok(Some(LoadGameEntry)))
    && (s.SaveList? && s.row < 10 ==> SaveSelection(p) == Some(s.row))
    && (s.ConfirmBox? ==> YesNoSelection(p) == Some(s.onYes))
    && (s.Loaded? ==> p.gray >= 0.15)
  }

  /** The channel never loses two presses in a row. */
  ghost predicate NeverTwice(w: World) {
    forall n: nat :: w.arrives(n) || w.arrives(n + 1)
  }

  // ---------------------------------------------------------------- the run

  /** The game, the keyboard and the screenshot tool, with a record of the presses that arrived. */
  class Session {
    const world: World
    var screen: Screen
    var step: nat
    ghost var arrived: seq<(Screen, Key)>

    constructor (world: World)
      ensures this.world == world && screen == Title && step == 0 && arrived == []
    {
      this.world, screen, step, arrived := world, Title, 0, [];
    }

    /** Every press that arrived was one the route is written for, and did no harm. */
    ghost predicate Safe(target: int)
      reads this
    {
      && (forall a :: a in arrived ==> Harmless(a.0, a.1, target))
      && screen != NewGame && (screen.Loaded? ==> screen.row == target)
    }

    /** `route_step`. */
    method RouteStep(key: Key) returns (p: Picture)
      modifies this
      ensures step == old(step) + 1
      ensures screen == if world.arrives(old(step)) then Next(world, old(screen), key) else old(screen)
      ensures arrived == old(arrived) + if world.arrives(old(step)) then [(old(screen), key)] else []
      ensures p == world.camera(old(step), screen)
    {
      if world.arrives(step) {
        arrived := arrived + [(screen, key)];
        screen := Next(world, screen, key);
      }
      p := world.camera(step, screen);
      step := step + 1;
    }
  }

  /** The presses the route is made of: on the way to the wanted row, and on that row. */
  predicate Harmless(s: Screen, k: Key, target: int) {
    match k
    case Down => s == MainMenu(true)
    case Up => s.SaveList? && s.row > 0 && s.row > target
    case Left => s.ConfirmBox? && s.row == target && !s.onYes
    case Confirm =>
      || s == Title || s == MainMenu(false)
      || (s.SaveList? && s.row == target)
      || (s.ConfirmBox? && s.row == target && s.onYes)
  }

  /** What each of them does is known; none enters a new game or loads another save. */
  lemma HarmlessIsKnown(w: World, w': World, s: Screen, k: Key, target: int)
    requires Harmless(s, k, target) && w.firstRow == w'.firstRow
    ensures Next(w, s, k) == Next(w', s, k) != NewGame
    ensures Next(w, s, k).Loaded? ==> Next(w, s, k) == Loaded(target)
  {
  }

  // ---------------------------------------------------------------- the stages of the route

  /** Complete gates, and a channel that never loses two presses in a row. */
  ghost predicate Reliable(w: World) {
    Complete(w) && NeverTwice(w)
  }

  /** A step that presses a harmless key. */
  method SafeStep(g: Session, key: Key, ghost target: int) returns (p: Picture)
    requires Harmless(g.screen, key, target) && Sound(g.world)
    modifies g
    ensures old(g.Safe(target)) ==> g.Safe(target)
    ensures old(g.arrived) <= g.arrived && g.step == old(g.step) + 1
    ensures g.screen == if g.world.arrives(old(g.step)) then Next(g.world, old(g.screen), key) else old(g.screen)
    ensures p == g.world.camera(old(g.step), g.screen) && SoundOf(p, g.screen)
    ensures Complete(g.world) ==> CompleteOf(p, g.screen)
  {
    p := g.RouteStep(key);
  }

  /** The last presses, so many, were lost. */
  predicate Lost(w: World, step: nat, tries: nat) {
    tries <= step && forall i :: step - tries <= i < step ==> !w.arrives(i)
  }

  /** What a stage whose gates are complete promises: it gives up only after three lost presses. */
  ghost predicate GivesUp(w: World, step: nat, error: Error, kind: Error) {
    Lost(w, step, 3) && error == kind
  }

  /** The loop on the title screen, from some try and screen on, presses CONFIRM on NEW GAME. */
  predicate EntersNewGame(w: World, attempt: nat, s: Screen)
    decreases 3 - attempt
  {
    attempt < 3
    && var next := if w.arrives(attempt) then Next(w, s, Confirm) else s;
      (s == MainMenu(true) && w.arrives(attempt))
      || (MenuSelection(w.camera(attempt, next)).Ok?
          && MenuSelection(w.camera(attempt, next)).value != Some(NewGameEntry)
          && EntersNewGame(w, attempt + 1, next))
  }

  /**
   * The loop on the title screen, the only one that presses on without telling a lost key from a
   * missed screen.
   */
  method ToMainMenu(g: Session, ghost target: int) returns (r: Result<(), Error>)
    requires g.screen == Title && g.step == 0 && g.arrived == [] && Sound(g.world)
    modifies g
    ensures (MainMenu(true), Confirm) in g.arrived <==> EntersNewGame(g.world, 0, Title)
    ensures !EntersNewGame(g.world, 0, Title) ==> g.Safe(target)
    ensures r.Ok? ==> g.screen == MainMenu(true)
    ensures Complete(g.world) && r.Err? ==> GivesUp(g.world, g.step, r.error, NotConfirmed)
    ensures g.step <= old(g.step) + 3
    ensures r.Err? ==> r.error != AboveFirstSave
  {
    hide MenuSelection, SaveSelection, YesNoSelection, Dark, Sound;
    ghost var entered := false;
    for attempt := 0 to 3
      invariant g.step == attempt
      invariant entered <==> (MainMenu(true), Confirm) in g.arrived
      invariant !entered ==> g.Safe(target)
      invariant !entered ==> g.screen == Title || g.screen == MainMenu(true)
      invariant EntersNewGame(g.world, 0, Title) <==> entered || EntersNewGame(g.world, attempt, g.screen)
      invariant Complete(g.world) ==> g.screen == Title
      invariant Complete(g.world) ==> Lost(g.world, g.step, attempt)
    {
      entered := entered || (g.screen == MainMenu(true) && g.world.arrives(g.step));
      var photo := g.RouteStep(Confirm);
      SoundAt(g.world, attempt, g.screen);
      CompleteAt(g.world, attempt, g.screen);
      var menu := MenuSelection(photo);
      if menu.Err? { return Err(menu.error); }
      if menu.value == Some(NewGameEntry) { return Ok(()); }
    }
    r := Err(NotConfirmed);
  }

  lemma SoundAt(w: World, n: nat, s: Screen)
    requires Sound(w)
    ensures SoundOf(w.camera(n, s), s)
  {
  }

  lemma CompleteAt(w: World, n: nat, s: Screen)
    ensures Complete(w) ==> CompleteOf(w.camera(n, s), s)
  {
  }

  /** When the first two presses arrive, and when the second and the third do. */
  lemma EntersAtOnce(w: World)
    requires w.arrives(0) && w.arrives(1) && Misses(w, 0)
    ensures EntersNewGame(w, 0, Title)
  {
    hide MenuSelection;
    assert EntersNewGame(w, 1, MainMenu(true));
  }

  lemma EntersLate(w: World)
    requires Sound(w) && !w.arrives(0) && w.arrives(1) && w.arrives(2)
    requires Misses(w, 1) && MenuSelection(w.camera(0, Title)).Ok?
    ensures EntersNewGame(w, 0, Title)
  {
    SoundAt(w, 0, Title);
    hide MenuSelection;
    assert EntersNewGame(w, 2, MainMenu(true));
    assert EntersNewGame(w, 1, Title);
  }

  lemma NeverEnters(w: World)
    requires Sound(w) && !Misses(w, 0) && (MenuSelection(w.camera(0, Title)).Err? || !Misses(w, 1))
    ensures !EntersNewGame(w, 0, Title)
  {
    SoundAt(w, 0, MainMenu(true));
    SoundAt(w, 1, MainMenu(true));
    hide MenuSelection;
    assert !EntersNewGame(w, 3, MainMenu(true)) && !EntersNewGame(w, 3, Title);
    assert !EntersNewGame(w, 2, Title);
    assert !EntersNewGame(w, 1, Title) || MenuSelection(w.camera(0, Title)).Err?;
  }

  /**
   * Whatever the channel loses, the loop never presses CONFIRM on NEW GAME exactly when neither of its
   * first two screenshots can miss the main menu (the second is not taken if the first is misshapen).
   */
  lemma NeverEntersIff(w: World)
    requires Sound(w)
    ensures (forall arrives :: !EntersNewGame(w.(arrives := arrives), 0, Title))
       <==> !Misses(w, 0) && (MenuSelection(w.camera(0, Title)).Err? || !Misses(w, 1))
  {
    var always, later := w.(arrives := n => true), w.(arrives := n => n > 0);
    hide MenuSelection, EntersNewGame;
    if Misses(w, 0) {
      assert Misses(always, 0);
      EntersAtOnce(always);
    } else if MenuSelection(w.camera(0, Title)).Ok? && Misses(w, 1) {
      SameCamera(w, later);
      EntersLate(later);
    } else {
      forall arrives ensures !EntersNewGame(w.(arrives := arrives), 0, Title) {
        SameCamera(w, w.(arrives := arrives));
        NeverEnters(w.(arrives := arrives));
      }
    }
  }

  lemma SameCamera(w: World, v: World)
    requires v.camera == w.camera
    ensures Sound(v) <==> Sound(w)
    ensures Misses(v, 0) == Misses(w, 0) && Misses(v, 1) == Misses(w, 1)
  {
  }

  method ToLoadGame(g: Session, ghost target: int) returns (r: Result<(), Error>)
    requires g.screen == MainMenu(true) && Sound(g.world)
    modifies g
    ensures old(g.Safe(target)) ==> g.Safe(target)
    ensures old(g.arrived) <= g.arrived
    ensures r.Ok? ==> g.screen == MainMenu(false)
    ensures Complete(g.world) && r.Err? ==> GivesUp(g.world, g.step, r.error, NotSelected)
    ensures g.step <= old(g.step) + 3
    ensures r.Err? ==> r.error != AboveFirstSave
  {
    hide Session.Safe, MenuSelection, SaveSelection, YesNoSelection, Dark;
    for attempt := 0 to 3
      invariant g.step == old(g.step) + attempt
      invariant g.screen == MainMenu(true) && old(g.arrived) <= g.arrived
      invariant old(g.Safe(target)) ==> g.Safe(target)
      invariant Complete(g.world) ==> Lost(g.world, g.step, attempt)
    {
      var photo := SafeStep(g, Down, target);
      var menu := MenuSelection(photo);
      if menu.Err? { return Err(menu.error); }
      if menu.value == Some(LoadGameEntry) { return Ok(()); }
      if menu.value != Some(NewGameEntry) { return Err(Ambiguous); }
    }
    r := Err(NotSelected);
  }

  method ToSaveList(g: Session, ghost target: int) returns (r: Result<nat, Error>)
    requires g.screen == MainMenu(false) && Sound(g.world)
    modifies g
    ensures old(g.Safe(target)) ==> g.Safe(target)
    ensures old(g.arrived) <= g.arrived
    ensures r.Ok? ==> r.value == g.world.firstRow && g.screen == SaveList(r.value)
    ensures Complete(g.world) && g.world.firstRow < 10 && r.Err? ==> GivesUp(g.world, g.step, r.error, NotSelected)
    ensures g.step <= old(g.step) + 3
    ensures r.Err? ==> r.error != AboveFirstSave
  {
    hide Session.Safe, MenuSelection, SaveSelection, YesNoSelection, Dark;
    for attempt := 0 to 3
      invariant g.step == old(g.step) + attempt
      invariant g.screen == MainMenu(false) && old(g.arrived) <= g.arrived
      invariant old(g.Safe(target)) ==> g.Safe(target)
      invariant Complete(g.world) && g.world.firstRow < 10 ==> Lost(g.world, g.step, attempt)
    {
      var photo := SafeStep(g, Confirm, target);
      var selectedSave := SaveSelection(photo);
      if selectedSave.Some? { return Ok(selectedSave.value); }
      var menu := MenuSelection(photo);
      if menu.Err? { return Err(menu.error); }
      if menu.value != Some(LoadGameEntry) { return Err(Ambiguous); }
    }
    r := Err(NotSelected);
  }

  /** One turn of the loop over SAVE_UP. */
  method MoveUp(g: Session, expected: nat, ghost target: int) returns (r: Result<(), Error>)
    requires g.screen == SaveList(expected + 1) && target <= expected && Sound(g.world)
    modifies g
    ensures old(g.Safe(target)) ==> g.Safe(target)
    ensures old(g.arrived) <= g.arrived
    ensures r.Ok? ==> g.screen == SaveList(expected)
    ensures Complete(g.world) && expected < 9 && r.Err? ==> GivesUp(g.world, g.step, r.error, NotSelected)
    ensures g.step <= old(g.step) + 3
    ensures r.Err? ==> r.error != AboveFirstSave
  {
    hide Session.Safe, MenuSelection, SaveSelection, YesNoSelection, Dark;
    for attempt := 0 to 3
      invariant g.step == old(g.step) + attempt
      invariant g.screen == SaveList(expected + 1) && old(g.arrived) <= g.arrived
      invariant old(g.Safe(target)) ==> g.Safe(target)
      invariant Complete(g.world) && expected < 9 ==> Lost(g.world, g.step, attempt)
    {
      var photo := SafeStep(g, Up, target);
      var actualSave := SaveSelection(photo);
      if actualSave == Some(expected) { return Ok(()); }
      if actualSave != Some(expected + 1) { return Err(Ambiguous); }
    }
    r := Err(NotSelected);
  }

  method ToConfirmBox(g: Session, expected: nat, ghost target: int) returns (r: Result<(), Error>)
    requires g.screen == SaveList(expected) && target == expected && Sound(g.world)
    modifies g
    ensures old(g.Safe(target)) ==> g.Safe(target)
    ensures old(g.arrived) <= g.arrived
    ensures r.Ok? ==> g.screen == ConfirmBox(expected, false)
    ensures Complete(g.world) && expected < 10 && r.Err? ==> GivesUp(g.world, g.step, r.error, NotConfirmed)
    ensures g.step <= old(g.step) + 3
    ensures r.Err? ==> r.error != AboveFirstSave
  {
    hide Session.Safe, MenuSelection, SaveSelection, YesNoSelection, Dark;
    for attempt := 0 to 3
      invariant g.step == old(g.step) + attempt
      invariant g.screen == SaveList(expected) && old(g.arrived) <= g.arrived
      invariant old(g.Safe(target)) ==> g.Safe(target)
      invariant Complete(g.world) && expected < 10 ==> Lost(g.world, g.step, attempt)
    {
      var photo := SafeStep(g, Confirm, target);
      if YesNoSelection(photo) == Some(false) { return Ok(()); }
      if SaveSelection(photo) != Some(expected) { return Err(Ambiguous); }
    }
    r := Err(NotConfirmed);
  }

  method ToYes(g: Session, ghost expected: nat, ghost target: int) returns (r: Result<(), Error>)
    requires g.screen == ConfirmBox(expected, false) && target == expected && Sound(g.world)
    modifies g
    ensures old(g.Safe(target)) ==> g.Safe(target)
    ensures old(g.arrived) <= g.arrived
    ensures r.Ok? ==> g.screen == ConfirmBox(expected, true)
    ensures Complete(g.world) && r.Err? ==> GivesUp(g.world, g.step, r.error, NotSelected)
    ensures g.step <= old(g.step) + 3
    ensures r.Err? ==> r.error != AboveFirstSave
  {
    hide Session.Safe, MenuSelection, SaveSelection, YesNoSelection, Dark;
    for attempt := 0 to 3
      invariant g.step == old(g.step) + attempt
      invariant g.screen == ConfirmBox(expected, false) && old(g.arrived) <= g.arrived
      invariant old(g.Safe(target)) ==> g.Safe(target)
      invariant Complete(g.world) ==> Lost(g.world, g.step, attempt)
    {
      var photo := SafeStep(g, Left, target);
      var selection := YesNoSelection(photo);
      if selection == Some(true) { return Ok(()); }
      if selection != Some(false) { return Err(Ambiguous); }
    }
    r := Err(NotSelected);
  }

  method Load(g: Session, ghost target: nat) returns (r: Result<(), Error>)
    requires g.screen == ConfirmBox(target, true) && Sound(g.world)
    modifies g
    ensures old(g.Safe(target)) ==> g.Safe(target)
    ensures old(g.arrived) <= g.arrived
    ensures r.Ok? ==> g.screen == Loaded(target)
    ensures Complete(g.world) && r.Err? ==> r.error == NotConfirmed && Lost(g.world, g.step, 2) && g.screen == old(g.screen)
    ensures g.step <= old(g.step) + 2
    ensures r.Err? ==> r.error != AboveFirstSave
  {
    hide Session.Safe, MenuSelection, SaveSelection, YesNoSelection;
    var photo := SafeStep(g, Confirm, target);
    if Dark(photo) {
      if YesNoSelection(photo) == Some(true) {
        photo := SafeStep(g, Confirm, target);
      }
      if Dark(photo) { return Err(NotConfirmed); }
    }
    r := Ok(());
  }

  /** How far the cursor is moved up; a negative SAVE_UP moves nothing. */
  function Moves(saveUp: int): nat { if saveUp < 0 then 0 else saveUp }

  lemma EnteringIsNotSafe(g: Session, target: int)
    requires (MainMenu(true), Confirm) in g.arrived
    ensures !g.Safe(target)
  {
    assert !Harmless(MainMenu(true), Confirm, target);
  }

  /**
   * The whole route.  Whatever presses are lost, it presses only keys it is written for, never confirms
   * a new game and loads no save but the one SAVE_UP rows above the row the list opens on, exactly
   * when its first loop is not caught out; it succeeds only with that save loaded, and does succeed if
   * the gates are complete, no two presses in a row are lost and the row is there.
   */
  method Route(g: Session, saveUp: int) returns (r: Result<(), Error>)
    requires g.screen == Title && g.step == 0 && g.arrived == [] && Sound(g.world)
    modifies g
    ensures saveUp >= 0 ==> (g.Safe(g.world.firstRow - saveUp) <==> !EntersNewGame(g.world, 0, Title))
    ensures saveUp < 0 ==> (g.Safe(g.world.firstRow) <==> !EntersNewGame(g.world, 0, Title))
    ensures r.Ok? && saveUp >= 0 ==> saveUp <= g.world.firstRow && g.screen == Loaded(g.world.firstRow - saveUp)
    ensures r.Ok? && saveUp < 0 ==> g.screen == Loaded(g.world.firstRow)
    ensures Complete(g.world) && saveUp <= g.world.firstRow < 10 && r.Err? ==>
              Lost(g.world, g.step, if g.screen.ConfirmBox? && g.screen.onYes then 2 else 3)
    ensures Complete(g.world) && NeverTwice(g.world) && g.world.firstRow < 10 ==> (r.Ok? <==> saveUp <= g.world.firstRow)
    ensures r == Err(AboveFirstSave) ==> saveUp > g.world.firstRow
    ensures g.step <= 17 + if saveUp < 0 then 0 else 3 * saveUp
  {
    ghost var target := g.world.firstRow - Moves(saveUp);
    hide Session.Safe, Sound, Complete, NeverTwice, Lost, EntersNewGame, Harmless, Next;
    assert target == if saveUp < 0 then g.world.firstRow else g.world.firstRow - saveUp;
    assert Moves(saveUp) == if saveUp < 0 then 0 else saveUp;
    hide Moves;
    r := Stages(g, saveUp, target);
    if (MainMenu(true), Confirm) in g.arrived {
      EnteringIsNotSafe(g, target);
    }
    NeverLostTwice(g.world, g.step);
  }

  lemma NeverLostTwice(w: World, step: nat)
    ensures NeverTwice(w) ==> !Lost(w, step, 2) && !Lost(w, step, 3)
  {
    if step > 1 && NeverTwice(w) {
      assert w.arrives(step - 2) || w.arrives(step - 2 + 1);
    }
  }

  method Stages(g: Session, saveUp: int, ghost target: int) returns (r: Result<(), Error>)
    requires g.screen == Title && g.step == 0 && g.arrived == [] && Sound(g.world)
    requires target == g.world.firstRow - Moves(saveUp)
    modifies g
    ensures EntersNewGame(g.world, 0, Title) ==> (MainMenu(true), Confirm) in g.arrived
    ensures !EntersNewGame(g.world, 0, Title) ==> g.Safe(target)
    ensures r.Ok? ==> Moves(saveUp) <= g.world.firstRow && g.screen == Loaded(target)
    ensures Complete(g.world) && Moves(saveUp) <= g.world.firstRow < 10 && r.Err? ==>
              Lost(g.world, g.step, if g.screen.ConfirmBox? && g.screen.onYes then 2 else 3)
    ensures r == Err(AboveFirstSave) ==> Moves(saveUp) > g.world.firstRow
    ensures g.step <= 17 + 3 * Moves(saveUp)
    ensures Complete(g.world) && g.world.firstRow < Moves(saveUp) && g.world.firstRow < 10 && r != Err(AboveFirstSave) ==>
              Lost(g.world, g.step, 3)
  {
    hide Session.Safe, Sound, Complete, EntersNewGame;
    r := ToMainMenu(g, target);
    ghost var arrived, safe := g.arrived, g.Safe(target);
    if r.Err? { return; }
    r := ToLoadGame(g, target);
    if r.Err? { return; }
    var first := ToSaveList(g, target);
    if first.Err? { return Err(first.error); }
    var expected: int := first.value;
    for i := 0 to Moves(saveUp)
      invariant expected == g.world.firstRow - i >= 0 && g.screen == SaveList(expected)
      invariant arrived <= g.arrived && (safe ==> g.Safe(target)) && g.step <= 9 + 3 * i
    {
      expected := expected - 1;
      if expected < 0 { return Err(AboveFirstSave); }
      r := MoveUp(g, expected, target);
      if r.Err? { return; }
    }
    r := ToConfirmBox(g, expected, target);
    if r.Err? { return; }
    r := ToYes(g, expected, target);
    if r.Err? { return; }
    r := Load(g, expected);
  }

  // ---------------------------------------------------------------- the assumptions can be met

  function Rendered(s: Screen): Picture {
    Photo("640x480",
          if s == MainMenu(true) then 1.0 else 0.0,
          if s == MainMenu(false) then 1.0 else 0.0,
          seq(10, i => if s.SaveList? && s.row == i then 1.0 else 0.0),
          if s.ConfirmBox? && s.onYes then 1.0 else 0.0,
          if s.ConfirmBox? && !s.onYes then 1.0 else 0.0,
          if s.Loaded? then 1.0 else 0.0)
  }

  lemma RenderedIsSoundAndComplete(s: Screen)
    ensures SoundOf(Rendered(s), s) && CompleteOf(Rendered(s), s)
  {
    var rows := Rendered(s).rows;
    if s.SaveList? && s.row < 10 {
      assert StandsOut(rows, s.row);
    } else {
      assert forall b: nat :: b < 10 ==> rows[b] == 0.0;
      assert forall b: nat :: !StandsOut(rows, b);
    }
  }

  /** A game that draws each screen the same way every time, and a keyboard that never fails. */
  lemma SomeWorldIsSound() returns (w: World)
    ensures Sound(w) && Reliable(w) && w.firstRow == 3
  {
    w := World((n, s) => Rendered(s), n => true, 3, (s, k) => s);
    forall n: nat, s: Screen ensures SoundOf(w.camera(n, s), s) && CompleteOf(w.camera(n, s), s) {
      RenderedIsSoundAndComplete(s);
    }
  }
}
