/**
 * The example game's scenes: each scene caches the images it created by
 * name, and the game switches scenes at the start of an update when a new
 * scene state has been requested. The canvas is reduced to the set of live
 * image ids and the id the next `createImage` hands out.
 */
module Scenes {
  import opened Wrappers
  import opened Images

  /** The canvas's image lifetime: `createImage` hands out a fresh id, `destroyImage` ends it. */
  datatype ImageStore = ImageStore(live: set<ImageId>, nextId: ImageId)
  {
    predicate Valid() { forall id :: id in live ==> id < nextId }
  }

  function CreateImage(s: ImageStore): (r: (ImageStore, ImageId))
    requires s.Valid()
    ensures r.0.Valid() && r.1 !in s.live && r.0.live == s.live + {r.1}
  {
    (ImageStore(s.live + {s.nextId}, s.nextId + 1), s.nextId)
  }

  /** NcScene: the images it loaded, by name, and whether it is attached to the game. */
  datatype Scene = Scene(loaded: map<string, ImageId>, attached: bool, initCount: nat)

  /** The scene's cached images are all alive. */
  predicate SceneValid(store: ImageStore, scene: Scene)
  {
    store.Valid() && forall name :: name in scene.loaded ==> scene.loaded[name] in store.live
  }

  /**
   * Scene `addImage`: a cached name gives back its image and creates
   * nothing; a new name creates an image and caches it.
   */
  function AddImage(store: ImageStore, scene: Scene, name: string): (r: (ImageStore, Scene, ImageId))
    requires SceneValid(store, scene)
    ensures SceneValid(r.0, r.1) && r.1.loaded.Keys == scene.loaded.Keys + {name}
    ensures name in scene.loaded ==> r == (store, scene, scene.loaded[name])
    ensures name !in scene.loaded ==>
      r.2 !in store.live && r.0.live == store.live + {r.2} && r.1 == scene.(loaded := scene.loaded[name := r.2])
  {
    if name in scene.loaded then (store, scene, scene.loaded[name])
    else
      var (store', image) := CreateImage(store);
      (store', scene.(loaded := scene.loaded[name := image]), image)
  }

  /** Scene `getImage`: the cached image, or None (null) for an unknown name. */
  function GetImage(scene: Scene, name: string): (r: Option<ImageId>)
    ensures r.None? <==> name !in scene.loaded
    ensures r.Some? ==> r.value == scene.loaded[name]
  {
    if name in scene.loaded then Some(scene.loaded[name]) else None
  }

  /** Adding an image and then looking it up finds it; adding the same name again changes nothing. */
  lemma AddImageThenGet(store: ImageStore, scene: Scene, name: string)
    requires SceneValid(store, scene)
    ensures var (s1, sc1, img) := AddImage(store, scene, name);
      GetImage(sc1, name) == Some(img) && AddImage(s1, sc1, name) == (s1, sc1, img)
  {
  }

  /** Scene `destroy`: every cached image is destroyed and the cache emptied. */
  function DestroyScene(store: ImageStore, scene: Scene): (r: (ImageStore, Scene))
    requires SceneValid(store, scene)
    ensures SceneValid(r.0, r.1) && r.1.loaded == map[] && r.0.nextId == store.nextId
    ensures forall id :: id in r.0.live <==> id in store.live && id !in scene.loaded.Values
  {
    (store.(live := store.live - scene.loaded.Values), scene.(loaded := map[]))
  }

  /** After `destroy` no name resolves and none of the scene's images is alive. */
  lemma DestroyForgetsImages(store: ImageStore, scene: Scene, name: string)
    requires SceneValid(store, scene) && name in scene.loaded
    ensures var r := DestroyScene(store, scene);
      GetImage(r.1, name).None? && scene.loaded[name] !in r.0.live
  {
  }

  // ------------------------------------------------------------ switching

  datatype SceneState = NoScene | MainMenu | Playing

  /** NcGame's scene machinery: the current and requested states, which scene is current, and both scenes. */
  datatype Game = Game(
    currentState: SceneState,
    nextState: SceneState,
    currentScene: SceneState,
    mainMenu: Scene,
    gameScene: Scene,
    store: ImageStore)

  function SceneOf(g: Game, s: SceneState): Scene
    requires s != NoScene
  {
    if s == MainMenu then g.mainMenu else g.gameScene
  }

  function WithScene(g: Game, s: SceneState, scene: Scene): (r: Game)
    requires s != NoScene
    ensures SceneOf(r, s) == scene && r.store == g.store && r.currentState == g.currentState
    ensures r.nextState == g.nextState && r.currentScene == g.currentScene
    ensures forall o :: o != NoScene && o != s ==> SceneOf(r, o) == SceneOf(g, o)
  {
    if s == MainMenu then g.(mainMenu := scene) else g.(gameScene := scene)
  }

  /**
   * The current-scene pointer always names the scene of the current state
   * (null for NONE); both caches hold live images, and no image is cached by both.
   */
  predicate GameValid(g: Game)
  {
    g.currentScene == g.currentState && CachesValid(g)
  }

  predicate CachesValid(g: Game)
  {
    SceneValid(g.store, g.mainMenu) && SceneValid(g.store, g.gameScene)
    && forall a, b :: a in g.mainMenu.loaded && b in g.gameScene.loaded ==> g.mainMenu.loaded[a] != g.gameScene.loaded[b]
  }

  /** NcGame `init`: no current scene yet, and the main menu requested. */
  function InitGame(store: ImageStore): (g: Game)
    requires store.Valid()
    ensures GameValid(g) && g.currentState == NoScene && g.nextState == MainMenu
  {
    var empty := Scene(map[], false, 0);
    Game(NoScene, MainMenu, NoScene, empty, empty, store)
  }

  /** `switchScene` only records the request; the switch happens in the next update. */
  function SwitchScene(g: Game, s: SceneState): (r: Game)
    ensures r.nextState == s && r.(nextState := g.nextState) == g
  {
    g.(nextState := s)
  }

  /**
   * The old scene's `destroy` runs and the scene is detached. Only the game
   * scene's `destroy` reaches the base NcScene::destroy; the main menu
   * overrides it with an empty body, so its images and cache survive.
   */
  function LeaveScene(g: Game): (r: Game)
    requires GameValid(g)
    ensures CachesValid(r)
    ensures r.currentState == g.currentState && r.nextState == g.nextState && r.currentScene == g.currentScene
    ensures g.currentScene == NoScene ==> r == g
    ensures g.currentScene == MainMenu ==> r == g.(mainMenu := g.mainMenu.(attached := false))
    ensures g.currentScene == Playing ==>
      r.mainMenu == g.mainMenu && r.gameScene == g.gameScene.(loaded := map[], attached := false)
      && r.store.nextId == g.store.nextId
      && forall id :: id in r.store.live <==> id in g.store.live && id !in g.gameScene.loaded.Values
  {
    match g.currentScene
    case NoScene => g
    case MainMenu => g.(mainMenu := g.mainMenu.(attached := false))
    case Playing =>
      var (store, scene) := DestroyScene(g.store, g.gameScene);
      g.(gameScene := scene.(attached := false), store := store)
  }

  /** The new scene is attached and initialised. */
  function EnterScene(g: Game): (r: Game)
    requires CachesValid(g)
    ensures CachesValid(r) && r.currentState == g.currentState && r.currentScene == g.currentScene
  {
    if g.currentScene == NoScene then g
    else
      var scene := SceneOf(g, g.currentScene);
      WithScene(g, g.currentScene, scene.(attached := true, initCount := scene.initCount + 1))
  }

  /**
   * The scene switch at the start of NcGame `update`: when another state is
   * requested, the current scene's `destroy` runs (emptying the cache only
   * for the game scene) and it is detached, the requested
   * one becomes current (none for NONE), and it is attached and initialised.
   * Scene `init` bodies are gameplay and are reduced to the attach and a count.
   */
  function UpdateScenes(g: Game): (r: Game)
    requires GameValid(g)
    ensures GameValid(r) && r.currentState == g.nextState && r.nextState == g.nextState
    ensures g.nextState == g.currentState ==> r == g
    ensures g.nextState != g.currentState && g.currentState == Playing ==>
      r.gameScene.loaded == map[] && !r.gameScene.attached
      && forall name :: name in g.gameScene.loaded ==> g.gameScene.loaded[name] !in r.store.live
    ensures g.nextState != g.currentState && g.currentState == MainMenu ==>
      r.mainMenu.loaded == g.mainMenu.loaded && r.store == g.store && !r.mainMenu.attached
    ensures g.nextState != g.currentState && g.nextState != NoScene ==>
      SceneOf(r, g.nextState).attached && SceneOf(r, g.nextState).initCount == SceneOf(g, g.nextState).initCount + 1
  {
    if g.nextState != g.currentState then
      var left := LeaveScene(g);
      var switched := left.(currentScene := g.nextState, currentState := g.nextState);
      EnterScene(switched)
    else g
  }

  /** A second update with no new request changes nothing. */
  lemma UpdateScenesIdempotent(g: Game)
    requires GameValid(g)
    ensures UpdateScenes(UpdateScenes(g)) == UpdateScenes(g)
  {
  }

  /** Requesting a state and updating makes it current; requesting the current state is a no-op. */
  lemma SwitchThenUpdate(g: Game, s: SceneState)
    requires GameValid(g)
    ensures UpdateScenes(SwitchScene(g, s)).currentState == s
    ensures s == g.currentState ==> UpdateScenes(SwitchScene(g, s)) == SwitchScene(g, s)
  {
  }

  /**
   * Going from the menu to the game and back re-initialises the menu but
   * keeps its cached images alive, while the game scene's images are destroyed.
   */
  lemma MenuGameMenu(g: Game)
    requires GameValid(g) && g.currentState == MainMenu
    ensures var r := UpdateScenes(SwitchScene(UpdateScenes(SwitchScene(g, Playing)), MainMenu));
      r.currentState == MainMenu && r.mainMenu.attached && r.mainMenu.loaded == g.mainMenu.loaded
      && r.mainMenu.initCount == g.mainMenu.initCount + 1
      && (forall name :: name in g.mainMenu.loaded ==> g.mainMenu.loaded[name] in r.store.live)
      && r.gameScene.loaded == map[]
  {
  }
}
