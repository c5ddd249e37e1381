/** `StorageUtils`: the saved-game summaries and the preferred save format,
    kept in the "minesweeper_prefs" key-value store. The summaries are
    stored under one key as a JSON list; the serializer is taken to map a
    list to its text and back unchanged, so the store holds the list
    itself. */
module StorageUtils {
  import opened GameData

  const SavedGamesKey: string := "saved_games"
  const PreferredFormatKey: string := "preferred_format"

  /** A stored value: a plain string, or the serialized list of
      summaries. */
  datatype PrefValue = Text(text: string) | GameList(games: seq<SavedGame>)

  /** `SaveFormat.name`. */
  function FormatName(f: SaveFormat): (name: string)
    ensures name == "XML" <==> f == XML
    ensures name == "JSON" <==> f == JSON
  {
    match f
    case XML => "XML"
    case JSON => "JSON"
  }

  /** `SaveFormat.valueOf`, falling back to JSON when the name matches no
      format. */
  function ParseFormat(name: string): (f: SaveFormat)
    ensures f == XML <==> name == "XML"
    ensures name == FormatName(f) || f == JSON
  {
    if name == "XML" then XML
    else if name == "JSON" then JSON
    else JSON
  }

  /** A stored format name reads back as the format that was stored. */
  lemma FormatRoundTrip(f: SaveFormat)
    ensures ParseFormat(FormatName(f)) == f
  {
    match f
    case XML =>
    case JSON => assert FormatName(f) != "XML";
  }

  /** `indexOfFirst { it.id == id }`: the first position holding the id,
      or -1. */
  function IndexOfFirst(games: seq<SavedGame>, id: string): (k: int)
    ensures -1 <= k < |games|
    ensures k == -1 <==> forall i :: 0 <= i < |games| ==> games[i].id != id
    ensures k >= 0 ==> games[k].id == id && forall i :: 0 <= i < k ==> games[i].id != id
  {
    if games == [] then -1
    else if games[0].id == id then 0
    else
      var k := IndexOfFirst(games[1..], id);
      if k < 0 then -1 else k + 1
  }

  /** The first summary with the id, if any. */
  function FindById(games: seq<SavedGame>, id: string): Option<SavedGame>
  {
    var k := IndexOfFirst(games, id);
    if k >= 0 then Some(games[k]) else None
  }

  predicate UniqueIds(games: seq<SavedGame>)
  {
    forall i, j :: 0 <= i < j < |games| ==> games[i].id != games[j].id
  }

  /** The update of `saveMetadata`: the first summary with the same id is
      replaced in place and every other position is kept; with no such
      summary the new one goes at the end. */
  function Upsert(games: seq<SavedGame>, g: SavedGame): (r: seq<SavedGame>)
    ensures forall k ::
      (0 <= k < |games| && games[k].id == g.id && forall i :: 0 <= i < k ==> games[i].id != g.id) ==>
        |r| == |games| && r[k] == g && forall i :: 0 <= i < |games| && i != k ==> r[i] == games[i]
    ensures (forall i :: 0 <= i < |games| ==> games[i].id != g.id) ==> r == games + [g]
  {
    var k := IndexOfFirst(games, g.id);
    if k >= 0 then games[k := g] else games + [g]
  }

  /** `removeIf { it.id == id }`: every summary with the id goes, the rest
      keep their order. */
  function RemoveId(games: seq<SavedGame>, id: string): (r: seq<SavedGame>)
    ensures |r| <= |games|
    ensures forall h :: h in r <==> h in games && h.id != id
  {
    if games == [] then []
    else if games[0].id == id then RemoveId(games[1..], id)
    else [games[0]] + RemoveId(games[1..], id)
  }

  /** After a save, looking the id up finds the summary just saved. */
  lemma UpsertFinds(games: seq<SavedGame>, g: SavedGame)
    ensures FindById(Upsert(games, g), g.id) == Some(g)
  {
    var k := IndexOfFirst(games, g.id);
    var r := Upsert(games, g);
    var k' := IndexOfFirst(r, g.id);
    if k >= 0 {
      assert r[k].id == g.id;
    } else {
      assert r[|games|] == g;
    }
  }

  /** A save touches no summary with another id, and adds nothing but the
      saved one; it grows the list only when the id is new. */
  lemma UpsertKeepsOthers(games: seq<SavedGame>, g: SavedGame)
    ensures forall h :: h in games && h.id != g.id ==> h in Upsert(games, g)
    ensures forall h :: h in Upsert(games, g) ==> h == g || h in games
    ensures |Upsert(games, g)| == if exists h :: h in games && h.id == g.id then |games| else |games| + 1
  {
    var k := IndexOfFirst(games, g.id);
    var r := Upsert(games, g);
    if k >= 0 {
      forall h | h in games && h.id != g.id ensures h in r {
        var i :| 0 <= i < |games| && games[i] == h;
        assert r[i] == h;
      }
      forall h | h in r ensures h == g || h in games {
        var i :| 0 <= i < |r| && r[i] == h;
        if i != k {
          assert games[i] == h;
        }
      }
      assert games[k] in games;
    } else {
      forall h | h in games ensures h.id != g.id {
        var i :| 0 <= i < |games| && games[i] == h;
      }
    }
  }

  /** Saving keeps the ids distinct. */
  lemma UpsertKeepsUnique(games: seq<SavedGame>, g: SavedGame)
    requires UniqueIds(games)
    ensures UniqueIds(Upsert(games, g))
  {
    var k := IndexOfFirst(games, g.id);
    var r := Upsert(games, g);
    forall i, j | 0 <= i < j < |r|
      ensures r[i].id != r[j].id
    {
      if k >= 0 {
        if i == k {
          assert games[j].id != games[k].id;
        } else if j == k {
          assert games[i].id != games[k].id;
        }
      } else if j == |games| {
        assert games[i].id != g.id;
      }
    }
  }

  /** Saving the same summary twice is saving it once. */
  lemma UpsertIdempotent(games: seq<SavedGame>, g: SavedGame)
    ensures Upsert(Upsert(games, g), g) == Upsert(games, g)
  {
    var r := Upsert(games, g);
    UpsertFinds(games, g);
    var k' := IndexOfFirst(r, g.id);
    assert r[k'] == g;
    assert r[k' := g] == r;
  }

  lemma {:induction false} RemoveIdAppend(a: seq<SavedGame>, b: seq<SavedGame>, id: string)
    ensures RemoveId(a + b, id) == RemoveId(a, id) + RemoveId(b, id)
  {
    if a != [] {
      assert (a + b)[1..] == a[1..] + b;
      RemoveIdAppend(a[1..], b, id);
    } else {
      assert a + b == b;
    }
  }

  /** Replacing a summary by another with the same id changes nothing
      that survives the removal of that id. */
  lemma {:induction false} RemoveIdUpdate(games: seq<SavedGame>, k: int, h: SavedGame)
    requires 0 <= k < |games| && games[k].id == h.id
    ensures RemoveId(games[k := h], h.id) == RemoveId(games, h.id)
  {
    if k > 0 {
      assert games[k := h][1..] == games[1..][k - 1 := h];
      RemoveIdUpdate(games[1..], k - 1, h);
    } else {
      assert games[k := h][1..] == games[1..];
    }
  }

  /** Deleting after saving is the same as deleting: the save leaves no
      trace under its id. */
  lemma RemoveAfterUpsert(games: seq<SavedGame>, g: SavedGame)
    ensures RemoveId(Upsert(games, g), g.id) == RemoveId(games, g.id)
  {
    var k := IndexOfFirst(games, g.id);
    if k >= 0 {
      RemoveIdUpdate(games, k, g);
    } else {
      RemoveIdAppend(games, [g], g.id);
      assert RemoveId([g], g.id) == RemoveId([], g.id);
    }
  }

  /** Deleting an id no summary carries leaves the list as it is. */
  lemma {:induction false} RemoveIdAbsent(games: seq<SavedGame>, id: string)
    requires forall i :: 0 <= i < |games| ==> games[i].id != id
    ensures RemoveId(games, id) == games
  {
    if games != [] {
      RemoveIdAbsent(games[1..], id);
      assert [games[0]] + games[1..] == games;
    }
  }

  /** Deleting twice is deleting once. */
  lemma RemoveIdIdempotent(games: seq<SavedGame>, id: string)
    ensures RemoveId(RemoveId(games, id), id) == RemoveId(games, id)
  {
    var r := RemoveId(games, id);
    forall i | 0 <= i < |r| ensures r[i].id != id {
      assert r[i] in r;
    }
    RemoveIdAbsent(r, id);
  }

  /** Deleting keeps the ids distinct. */
  lemma {:induction false} RemoveIdKeepsUnique(games: seq<SavedGame>, id: string)
    requires UniqueIds(games)
    ensures UniqueIds(RemoveId(games, id))
  {
    if games != [] {
      RemoveIdKeepsUnique(games[1..], id);
      var rest := RemoveId(games[1..], id);
      if games[0].id != id {
        forall h | h in rest ensures h.id != games[0].id {
          var i :| 0 <= i < |games[1..]| && games[1..][i] == h;
          assert games[i + 1] == h;
        }
        var r := [games[0]] + rest;
        forall i, j | 0 <= i < j < |r| ensures r[i].id != r[j].id {
          if i == 0 {
            assert r[j] == rest[j - 1] && rest[j - 1] in rest;
          } else {
            assert r[i] == rest[i - 1] && r[j] == rest[j - 1];
          }
        }
      }
    }
  }

  /** The preference file: a map from keys to stored values. */
  class Preferences {
    var entries: map<string, PrefValue>

    /** An empty preference file. */
    constructor()
      ensures entries == map[]
    {
      entries := map[];
    }

    /** `loadAllMetadata`: the stored list, or the empty list when nothing
        is stored. */
    function LoadAllMetadata(): (games: seq<SavedGame>)
      reads this
      ensures SavedGamesKey !in entries ==> games == []
    {
      if SavedGamesKey in entries then
        match entries[SavedGamesKey]
        case GameList(gs) => gs
        case Text(_) => []
      else []
    }

    /** `getPreferredFormat`: the stored name read back, JSON when nothing
        or no format name is stored. */
    function GetPreferredFormat(): (f: SaveFormat)
      reads this
      ensures PreferredFormatKey !in entries ==> f == JSON
      ensures f == XML <==> PreferredFormatKey in entries && entries[PreferredFormatKey] == Text("XML")
    {
      if PreferredFormatKey in entries then
        match entries[PreferredFormatKey]
        case Text(name) => ParseFormat(name)
        case GameList(_) => JSON
      else ParseFormat(FormatName(JSON))
    }

    /** `saveMetadata`: replace the summary with the same id, or append it,
        and write the list back. */
    method SaveMetadata(savedGame: SavedGame)
      modifies this
      ensures entries == old(entries)[SavedGamesKey := GameList(Upsert(old(LoadAllMetadata()), savedGame))]
      ensures FindById(LoadAllMetadata(), savedGame.id) == Some(savedGame)
      ensures GetPreferredFormat() == old(GetPreferredFormat())
    {
      var savedGames := LoadAllMetadata();
      var existingIndex := IndexOfFirst(savedGames, savedGame.id);
      if existingIndex >= 0 {
        savedGames := savedGames[existingIndex := savedGame];
      } else {
        savedGames := savedGames + [savedGame];
      }
      entries := entries[SavedGamesKey := GameList(savedGames)];
      UpsertFinds(old(LoadAllMetadata()), savedGame);
    }

    /** `deleteMetadata`: drop every summary with the id and write the list
        back. */
    method DeleteMetadata(gameId: string)
      modifies this
      ensures entries == old(entries)[SavedGamesKey := GameList(RemoveId(old(LoadAllMetadata()), gameId))]
      ensures forall g :: g in LoadAllMetadata() <==> g in old(LoadAllMetadata()) && g.id != gameId
      ensures GetPreferredFormat() == old(GetPreferredFormat())
    {
      var savedGames := LoadAllMetadata();
      savedGames := RemoveId(savedGames, gameId);
      entries := entries[SavedGamesKey := GameList(savedGames)];
    }

    /** `savePreferredFormat`: store the format's name. */
    method SavePreferredFormat(format: SaveFormat)
      modifies this
      ensures entries == old(entries)[PreferredFormatKey := Text(FormatName(format))]
      ensures GetPreferredFormat() == format
      ensures LoadAllMetadata() == old(LoadAllMetadata())
    {
      entries := entries[PreferredFormatKey := Text(FormatName(format))];
      FormatRoundTrip(format);
    }
  }
}
