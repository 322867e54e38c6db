/**
 * The in-memory state of one game session, as kept by the server's
 * `GameState` object: the connected players keyed by their connection id
 * (sid), the one sid that holds the admin slot, whether a game is running,
 * the night and energy counters, and the open/closed position of each door.
 */
module Game {
  import opened Wrappers
  import opened OrderedMaps

  /** A connection id, assigned by the transport. */
  type Sid = string

  /** What the registry stores for a player: `{"role": role, "name": name}`. */
  datatype Player = Player(role: string, name: string)

  /** One row of the admin's player list: `{"id": sid, "name": name, "role": role}`. */
  datatype PlayerInfo = PlayerInfo(id: Sid, name: string, role: string)

  /** The player registry: an insertion-ordered dictionary from sid to player. */
  type Registry = OMap<Sid, Player>

  const InitialNight: int := 1
  const InitialEnergy: int := 240

  /** The two door sides; the door map never has any other key. */
  const DoorSides: set<string> := {"left", "right"}

  /** The doors of a fresh session: both closed. */
  const InitialDoors: map<string, bool> := map["left" := false, "right" := false]

  /** The player list built from a registry's keys in order, one row per key. */
  function Listing(keys: seq<Sid>, table: map<Sid, Player>): (r: seq<PlayerInfo>)
    requires forall k :: k in keys ==> k in table
    ensures |r| == |keys|
    ensures forall i :: 0 <= i < |r| ==>
      r[i].id == keys[i] && table[keys[i]] == Player(r[i].role, r[i].name)
  {
    if keys == [] then []
    else
      var p := table[keys[0]];
      [PlayerInfo(keys[0], p.name, p.role)] + Listing(keys[1..], table)
  }

  /** The list of a registry in insertion order. */
  function ListingOf(d: Registry): seq<PlayerInfo>
    requires d.Valid()
  {
    Listing(d.keys, d.table)
  }

  /** Every row of the list shows a registered player exactly as stored. */
  lemma ListingRowsAreRegistered(d: Registry, e: PlayerInfo)
    requires d.Valid() && e in ListingOf(d)
    ensures d.Get(e.id) == Some(Player(e.role, e.name))
  {
  }

  /** A sid is registered exactly when the list has a row for it. */
  lemma ListingCoversRegistry(d: Registry, sid: Sid)
    requires d.Valid()
    ensures d.Contains(sid) <==> exists e :: e in ListingOf(d) && e.id == sid
  {
    var r := ListingOf(d);
    if d.Contains(sid) {
      assert r[IndexOf(d.keys, sid)].id == sid;
    } else {
      forall e | e in r
        ensures e.id != sid
      {
        ListingRowsAreRegistered(d, e);
      }
    }
  }

  /** Adding a new player appends exactly its row to the list. */
  lemma ListingAfterAddNew(d: Registry, sid: Sid, p: Player)
    requires d.Valid() && !d.Contains(sid)
    ensures ListingOf(d.Put(sid, p)) == ListingOf(d) + [PlayerInfo(sid, p.name, p.role)]
  {
  }

  /** Re-adding a registered sid rewrites its row where it stands and nothing else. */
  lemma ListingAfterAddExisting(d: Registry, i: nat, p: Player)
    requires d.Valid() && i < |d.keys|
    ensures ListingOf(d.Put(d.keys[i], p)) == ListingOf(d)[i := PlayerInfo(d.keys[i], p.name, p.role)]
  {
  }

  /** Removing the player at position `i` cuts exactly its row out of the list. */
  lemma ListingAfterRemove(d: Registry, i: nat)
    requires d.Valid() && i < |d.keys|
    ensures ListingOf(d.Remove(d.keys[i])) == ListingOf(d)[..i] + ListingOf(d)[i + 1..]
  {
    var sid := d.keys[i];
    var r, r' := ListingOf(d), ListingOf(d.Remove(sid));
    assert d.Remove(sid).keys == d.keys[..i] + d.keys[i + 1..];
    forall j | 0 <= j < |r'|
      ensures r'[j] == (r[..i] + r[i + 1..])[j]
    {
      if j < i {
        assert d.Remove(sid).keys[j] == d.keys[j];
      } else {
        assert d.Remove(sid).keys[j] == d.keys[j + 1];
      }
    }
  }

  /** `update_door`: a known side is opened by `"open"` and closed by
      anything else; an unknown side is ignored. */
  function DoorsAfter(doors: map<string, bool>, side: string, action: string): (r: map<string, bool>)
    ensures r.Keys == doors.Keys
    ensures side in doors ==> (r[side] <==> action == "open")
    ensures forall s :: s in doors && s != side ==> r[s] == doors[s]
  {
    if side in doors then doors[side := action == "open"] else doors
  }

  /** Repeating a door update has no further effect. */
  lemma DoorsAfterIdempotent(doors: map<string, bool>, side: string, action: string)
    ensures DoorsAfter(DoorsAfter(doors, side, action), side, action) == DoorsAfter(doors, side, action)
  {
  }

  /** An update on a side that is not a door leaves the doors as they were. */
  lemma DoorsAfterUnknownSide(doors: map<string, bool>, side: string, action: string)
    requires side !in doors
    ensures DoorsAfter(doors, side, action) == doors
  {
  }

  class GameState {
    var players: Registry
    var adminSid: Option<Sid>
    var gameActive: bool
    var currentNight: int
    var energy: int
    var doors: map<string, bool>

    /** The registry is a well-formed ordered dictionary and the door map
        has exactly the two sides. */
    ghost predicate Valid()
      reads this
    {
      players.Valid() && doors.Keys == DoorSides
    }

    /** `__init__`: no players, no admin, no game running, night 1, energy 240,
        both doors closed. */
    constructor ()
      ensures Valid()
      ensures players == Empty() && adminSid == None && !gameActive
      ensures IsAdmin(None) && forall s :: !IsAdmin(Some(s))
      ensures currentNight == InitialNight && energy == InitialEnergy
      ensures doors == InitialDoors
    {
      players := Empty();
      adminSid := None;
      gameActive := false;
      currentNight := InitialNight;
      energy := InitialEnergy;
      doors := InitialDoors;
    }

    /** `is_admin`: whether `sid` equals the admin slot. As in the code,
        `None` is "admin" exactly while the slot is empty. */
    predicate IsAdmin(sid: Option<Sid>)
      reads this
      ensures IsAdmin(sid) <==> sid == adminSid
      ensures IsAdmin(sid) && sid.Some? ==> adminSid != None
    {
      sid == adminSid
    }

    /** `set_admin`: `sid` takes the admin slot, displacing whoever held it;
        `set_admin(None)` empties the slot. */
    method SetAdmin(sid: Option<Sid>)
      requires Valid()
      modifies this`adminSid
      ensures Valid()
      ensures IsAdmin(sid)
      ensures forall t :: IsAdmin(t) ==> t == sid
    {
      adminSid := sid;
    }

    /** `add_player`: registers `sid` with the given role and name, or
        overwrites its record in place if it is already registered. */
    method AddPlayer(sid: Sid, role: string, name: string)
      requires Valid()
      modifies this`players
      ensures Valid()
      ensures players == old(players).Put(sid, Player(role, name))
      ensures ValidatePlayer(sid) && players.Get(sid) == Some(Player(role, name))
    {
      players := players.Put(sid, Player(role, name));
    }

    /** `remove_player`: deletes `sid` and returns what it held, or `None` if
        it was not registered. The admin slot is not touched. */
    method RemovePlayer(sid: Sid) returns (removed: Option<Player>)
      requires Valid()
      modifies this`players
      ensures Valid()
      ensures removed == old(players).Get(sid)
      ensures players == old(players).Remove(sid)
      ensures !ValidatePlayer(sid)
      ensures IsAdmin(Some(sid)) == old(IsAdmin(Some(sid)))
    {
      removed := players.Get(sid);
      players := players.Remove(sid);
    }

    /** `start_game`: the game is running; always reports success. */
    method StartGame() returns (ok: bool)
      requires Valid()
      modifies this`gameActive
      ensures Valid()
      ensures gameActive && ok
    {
      gameActive := true;
      ok := true;
    }

    /** `end_game`: the game is stopped; always reports success. */
    method EndGame() returns (ok: bool)
      requires Valid()
      modifies this`gameActive
      ensures Valid()
      ensures !gameActive && ok
    {
      gameActive := false;
      ok := true;
    }

    /** `get_player_list`: one row per registered player, in insertion order. */
    function PlayerList(): (r: seq<PlayerInfo>)
      reads this
      requires Valid()
      ensures |r| == |players.keys|
      ensures forall i :: 0 <= i < |r| ==>
        r[i].id == players.keys[i] && players.Get(r[i].id) == Some(Player(r[i].role, r[i].name))
    {
      ListingOf(players)
    }

    /** `validate_player`: whether `sid` is registered, that is, whether it has
        a row in the player list. */
    function ValidatePlayer(sid: Sid): (b: bool)
      reads this
      requires Valid()
      ensures b <==> exists e :: e in PlayerList() && e.id == sid
    {
      ListingCoversRegistry(players, sid);
      players.Contains(sid)
    }

    /** `validate_move`: the movement rule is a stub that accepts every move. */
    function ValidateMove<T>(data: T): (ok: bool)
      ensures ok
    {
      true
    }

    /** `update_door`: see `DoorsAfter`. */
    method UpdateDoor(side: string, action: string)
      requires Valid()
      modifies this`doors
      ensures Valid()
      ensures doors == DoorsAfter(old(doors), side, action)
    {
      if side in doors {
        doors := doors[side := action == "open"];
      }
    }
  }

  /** At most one sid holds the admin slot at any time. */
  lemma AdminIsUnique(g: GameState, s: Option<Sid>, t: Option<Sid>)
    requires g.IsAdmin(s) && g.IsAdmin(t)
    ensures s == t
  {
  }
}
