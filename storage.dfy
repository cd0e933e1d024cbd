// Persistence of the 2048 game (2048ai/storage.ts): the in-memory key-value store
// used when `window.localStorage` is unavailable, and the manager that keeps the best
// score and the saved game in it. The saved game is JSON text; this model stores the
// text as it is given and does not parse it.

module Storage {
  import opened Common
  import opened Strings

  /** `fakeStorage`: a dictionary from keys to strings. */
  class FakeStorage {
    var data: map<string, string>

    constructor ()
      ensures data == map[]
    {
      data := map[];
    }

    /** `setItem(id, val)`: stores `val` (already a string here) and returns it. */
    method SetItem(id: string, val: string) returns (r: string)
      modifies this
      ensures data == old(data)[id := val] && r == val
    {
      data := data[id := val];
      r := val;
    }

    /** `getItem(id)`: the stored string, or `undefined` for an absent key. */
    function GetItem(id: string): (r: Option<string>)
      reads this
      ensures r.Some? <==> id in data
      ensures r.Some? ==> r.value == data[id]
    {
      if id in data then Some(data[id]) else None
    }

    /** `removeItem(id)`: `delete` always answers true. */
    method RemoveItem(id: string) returns (r: bool)
      modifies this
      ensures data == old(data) - {id} && r
    {
      data := data - {id};
      r := true;
    }

    method Clear()
      modifies this
      ensures data == map[]
    {
      data := map[];
    }
  }

  const BestScoreKey: string := "bestScore"
  const GameStateKey: string := "gameState"

  /** What `getBestScore` makes of the stored entry: 0 when it is missing or empty,
    * otherwise `parseInt` of it (`None` is `NaN`). */
  function BestScoreOf(entry: Option<string>): (r: Option<int>)
    ensures entry.None? || entry == Some("") ==> r == Some(0)
    ensures entry.Some? && entry.value != "" ==> r == ParseInt(entry.value)
  {
    match entry
    case None => Some(0)
    case Some(s) => if s == "" then Some(0) else ParseInt(s)
  }

  /** What `getGameState` hands to `JSON.parse`: nothing when the entry is missing
    * or empty. */
  function GameStateOf(entry: Option<string>): (r: Option<string>)
    ensures r.Some? <==> entry.Some? && entry.value != ""
    ensures r.Some? ==> r == entry
  {
    match entry
    case None => None
    case Some(s) => if s == "" then None else Some(s)
  }

  /** Storing a best score and reading it back gives the same number. */
  lemma BestScoreRoundTrip(score: int)
    ensures BestScoreOf(Some(IntToString(score))) == Some(score)
  {
    ParseIntOfString(score);
  }

  class LocalStorageManager {
    const storage: FakeStorage

    constructor (storage: FakeStorage)
      ensures this.storage == storage
    {
      this.storage := storage;
    }

    function GetBestScore(): (r: Option<int>)
      reads this, storage
      ensures r == BestScoreOf(storage.GetItem(BestScoreKey))
      ensures BestScoreKey !in storage.data ==> r == Some(0)
    {
      BestScoreOf(storage.GetItem(BestScoreKey))
    }

    method SetBestScore(score: int)
      modifies storage
      ensures storage.data == old(storage.data)[BestScoreKey := IntToString(score)]
      ensures GetBestScore() == Some(score)
    {
      var _ := storage.SetItem(BestScoreKey, IntToString(score));
      BestScoreRoundTrip(score);
    }

    /** The saved game's JSON text, if there is any. */
    function GetGameState(): (r: Option<string>)
      reads this, storage
      ensures r == GameStateOf(storage.GetItem(GameStateKey))
    {
      GameStateOf(storage.GetItem(GameStateKey))
    }

    /** `setGameState(gameState)`, given the text `JSON.stringify` produced. */
    method SetGameState(json: string)
      modifies storage
      ensures storage.data == old(storage.data)[GameStateKey := json]
      ensures json != "" ==> GetGameState() == Some(json)
    {
      var _ := storage.SetItem(GameStateKey, json);
    }

    method ClearGameState()
      modifies storage
      ensures storage.data == old(storage.data) - {GameStateKey}
      ensures GetGameState() == None
      ensures GetBestScore() == old(GetBestScore())
    {
      var _ := storage.RemoveItem(GameStateKey);
    }
  }
}
