/** The landing page: joining a game by code and creating a hosted game. */
module Home {
  import opened Collections
  import opened Text
  import opened Types
  import opened Queries
  import opened Actions

  /** Where the page navigates after a successful join or create. */
  datatype Route = Play(gameId: Id) | HostView(gameId: Id)

  const GameNotFound := "Game not found. Check the code and try again."
  const AlreadyStarted := "This game has already started."

  /** What an input with `maxLength = n` keeps of typed text: its first `n`
      characters, counted as code points (the browser counts UTF-16 code
      units, which differ only outside the Basic Multilingual Plane). */
  function Capped(s: string, n: nat): (r: string)
    ensures r <= s
    ensures |r| == if |s| <= n then |s| else n
  {
    if |s| <= n then s else s[..n]
  }

  /** The page's form state. */
  class HomePage {
    var name: string
    var gameCode: string
    var masterPin: string
    var error: string
    var loading: bool

    constructor ()
      ensures name == "" && gameCode == "" && masterPin == "" && error == "" && !loading
    {
      name, gameCode, masterPin, error := "", "", "", "";
      loading := false;
    }

    method TypeName(typed: string)
      modifies this
      ensures name == typed
      ensures gameCode == old(gameCode) && masterPin == old(masterPin) && error == old(error) && loading == old(loading)
    {
      name := typed;
    }

    /** The code input: at most 6 characters, upper-cased as typed. */
    method TypeGameCode(typed: string)
      modifies this
      ensures gameCode == Upper(Capped(typed, 6))
      ensures |gameCode| <= 6 && forall i :: 0 <= i < |gameCode| ==> !IsLower(gameCode[i])
      ensures name == old(name) && masterPin == old(masterPin) && error == old(error) && loading == old(loading)
    {
      gameCode := Upper(Capped(typed, 6));
    }

    /** The host PIN input: at most 8 characters. */
    method TypeMasterPin(typed: string)
      modifies this
      ensures masterPin == Capped(typed, 8) && |masterPin| <= 8
      ensures name == old(name) && gameCode == old(gameCode) && error == old(error) && loading == old(loading)
    {
      masterPin := Capped(typed, 8);
    }

    /** The Back button: clears the error message. */
    method Back()
      modifies this
      ensures error == ""
      ensures name == old(name) && gameCode == old(gameCode) && masterPin == old(masterPin) && loading == old(loading)
    {
      error := "";
    }

    /** The Join button is disabled while a request is pending and while the
        name or the code is blank. */
    function JoinDisabled(): (d: bool)
      reads this
      ensures d <==> loading || IsBlank(name) || IsBlank(gameCode)
    {
      loading || Trim(name) == [] || Trim(gameCode) == []
    }

    /** The Create Game button is disabled while a request is pending and
        while the PIN is blank. */
    function CreateDisabled(): (d: bool)
      reads this
      ensures d <==> loading || IsBlank(masterPin)
    {
      loading || Trim(masterPin) == []
    }

    /** `handleJoin`: an unknown code and a game past its lobby are refused
        with their messages and write nothing; a lobby game gets a new
        player under the typed name and the page moves on to that game's
        play screen. */
    method HandleJoin(store: Store) returns (nav: Option<Route>)
      requires store.Valid()
      modifies this, store
      ensures store.Valid()
      ensures name == old(name) && gameCode == old(gameCode) && masterPin == old(masterPin)
      ensures old(GameByCode(store.games, gameCode)).None? ==>
        nav.None? && error == GameNotFound && !loading && unchanged(store)
      ensures old(GameByCode(store.games, gameCode)).Some? && old(GameByCode(store.games, gameCode)).value.status != Lobby ==>
        nav.None? && error == AlreadyStarted && !loading && unchanged(store)
      ensures old(GameByCode(store.games, gameCode)).Some? && old(GameByCode(store.games, gameCode)).value.status == Lobby ==>
        var game := old(GameByCode(store.games, gameCode)).value;
        && nav == Some(Play(game.id)) && error == "" && loading
        && store.players == old(store.players) + [Player(old(store.nextId), game.id, name, 0)]
        && store.nextId == old(store.nextId) + 1
        && store.games == old(store.games) && store.questions == old(store.questions) && store.answers == old(store.answers)
    {
      error := "";
      loading := true;
      var game := store.GetGameByCode(gameCode);
      if game.None? {
        error := GameNotFound;
        loading := false;
        return None;
      }
      if game.value.status != Lobby {
        error := AlreadyStarted;
        loading := false;
        return None;
      }
      var k :| 0 <= k < |store.games| && store.games[k] == game.value;
      var player := store.JoinGame(game.value.id, name);
      nav := Some(Play(game.value.id));
    }

    /** `handleCreateGame`: a refused PIN shows the server's message and
        stays on the page; an accepted one moves on to the new game's host
        screen. */
    method HandleCreateGame(store: Store, configuredPin: Option<string>, code: string, seeds: seq<Seed>)
      returns (nav: Option<Route>)
      requires store.Valid()
      modifies this, store
      ensures store.Valid()
      ensures name == old(name) && gameCode == old(gameCode) && masterPin == old(masterPin)
      ensures configuredPin != Some(masterPin) ==>
        nav.None? && error == InvalidPin && !loading && unchanged(store)
      ensures configuredPin == Some(masterPin) ==>
        && nav == Some(HostView(old(store.nextId))) && error == "" && loading
        && store.games == old(store.games) + [Game(old(store.nextId), Upper(code), Lobby, 0)]
        && store.questions == old(store.questions) + SeedRows(old(store.nextId), seeds, old(store.nextId) + 1)
        && store.players == old(store.players) && store.answers == old(store.answers)
        && store.nextId == old(store.nextId) + 1 + |seeds|
    {
      // The server action never reads the form's state, so clearing the
      // error and raising `loading` may follow the call as well as precede it.
      var result := CreateHostGame(store, masterPin, configuredPin, code, seeds);
      error := "";
      loading := true;
      if result.HostError? {
        error := result.error;
        loading := false;
        nav := None;
      } else {
        nav := Some(HostView(result.gameId));
      }
    }
  }
}
