# FNaR game-session state in Dafny

This project models the in-memory session state of the FNaR realtime game
server, held in one `GameState` object (`backend/game_state.py`). The state
consists of:

- the player registry, a Python dict from connection id (sid) to
  `{role, name}` that keeps insertion order;
- a single admin slot (`admin_sid`);
- the `game_active` flag;
- the night and energy counters (1 and 240);
- the door map, whose keys are exactly `left` and `right`.

Files:

- `wrappers.dfy`: the `Option` type, the model of Python's `None`-or-value.
- `ordered_map.dfy`: module `OrderedMaps`, the dict semantics the registry
  relies on. `OMap` pairs the key sequence in first-insertion order with the
  entry map. Assigning to a key that is already present keeps the key's
  position. Deleting a key cuts that one position out of the order.
- `game_state.dfy`: module `Game`, which holds the class `GameState` with one
  field per Python attribute. The methods that update fields in place have
  field-level `modifies` frames. For example, `StartGame` may change only
  `gameActive`, so the frame itself says that nothing else changes. No
  method's frame names `currentNight` or `energy`, so no method changes
  them. The read-only queries are functions. `Listing`, `DoorsAfter` and the
  lemmas beside them are the value-level specification the methods are
  proved against.

The code raises no errors where a stricter server might, and the model
follows the code:

- registering raises no role-conflict or already-registered error;
- starting or ending a game never fails;
- an unknown door side is silently ignored, not rejected;
- any action other than `"open"` closes the door;
- removing a player never clears the admin slot;
- there is no character map and no night advancement.

## Model

| member | source | states |
|---|---|---|
| Game.GameState.constructor | backend/game_state.py:2-8 | A fresh state has no players, no admin and no game running, so no sid is admin and `is_admin(None)` holds. The night is 1, the energy is 240, and both doors are closed. |
| Game.GameState.SetAdmin | backend/game_state.py:10-11 | After `set_admin(s)`, `is_admin(s)` holds and `is_admin(t)` fails for every other `t`, `None` included. `set_admin(None)` empties the slot. Only the admin slot changes. |
| Game.GameState.IsAdmin | backend/game_state.py:13-14 | Holds exactly when `sid` equals the admin slot. A fresh state has no sid as admin, and there `is_admin(None)` holds. A sid that is admin means the slot is occupied. |
| Game.AdminIsUnique | backend/game_state.py:13-14 | No two distinct sids are admin at the same time. |
| Game.GameState.AddPlayer | backend/game_state.py:16-17 | `sid` becomes valid and stores exactly `{role, name}`. The registry changes as a dict assignment does. Only the registry changes. |
| Game.GameState.RemovePlayer | backend/game_state.py:19-20 | Returns the previous record, or None when `sid` was absent. Afterwards `sid` is not valid and the other entries keep their order. Whether `sid` is admin stays as it was. |
| Game.GameState.StartGame | backend/game_state.py:22-24 | The flag is true and the result is True, from any state, so the call is idempotent. Only the flag changes. |
| Game.GameState.EndGame | backend/game_state.py:26-28 | The flag is false and the result is True, from any state, so the call is idempotent. Only the flag changes. |
| Game.GameState.PlayerList | backend/game_state.py:30-34 | One row per registered player, in insertion order. Each row's id, name and role are what the registry stores for that sid. |
| Game.Listing | backend/game_state.py:31-34 | The comprehension over `players.items()` yields as many rows as there are keys. Row `i` shows key `i` with its stored name and role. |
| Game.ListingRowsAreRegistered | backend/game_state.py:31-34 | Every row of the list is a registered player, exactly as stored. |
| Game.ListingCoversRegistry | backend/game_state.py:30-37 | A sid is registered exactly when the player list has a row for it. |
| Game.ListingAfterAddNew | backend/game_state.py:30-34 | After `add_player` with a new sid, the list is the old list plus that sid's row at the end. |
| Game.ListingAfterAddExisting | backend/game_state.py:30-34 | After `add_player` with a registered sid, the list has that sid's row rewritten in place. Every other row is unchanged. |
| Game.ListingAfterRemove | backend/game_state.py:30-34 | After `remove_player`, the list is the old list with exactly the removed sid's row cut out. |
| Game.GameState.ValidatePlayer | backend/game_state.py:36-37 | `validate_player(sid)` holds exactly when the player list has a row with that id. |
| Game.GameState.ValidateMove | backend/game_state.py:39-41 | Every move is accepted. |
| Game.GameState.UpdateDoor | backend/game_state.py:43-45 | The door map becomes `DoorsAfter` of the old map. The key set stays exactly `{left, right}`. Only the door map changes. |
| Game.DoorsAfter | backend/game_state.py:43-45 | The key set never changes. A known side becomes open exactly when the action is `"open"`, so any other action closes it. Every other side keeps its state. |
| Game.DoorsAfterIdempotent | backend/game_state.py:43-45 | Repeating the same door update changes nothing further. |
| Game.DoorsAfterUnknownSide | backend/game_state.py:44-45 | An update naming an unknown side leaves the doors as they were. |
| OrderedMaps.Empty | backend/game_state.py:3 | The empty dict has no keys. |
| OrderedMaps.ContainsIffListed | backend/game_state.py:37 | `k in d` holds on a valid dict exactly when `k` is among its keys in order. |
| OrderedMaps.OMap.Get | backend/game_state.py:20 | `d.get(k)` is `None` exactly when `k` is absent, and otherwise the stored value. |
| OrderedMaps.OMap.Put | backend/game_state.py:17 | After `d[k] = v`, `k` maps to `v` and every other key keeps its value. Every existing key keeps its position. A new key goes at the end. |
| OrderedMaps.OMap.Remove | backend/game_state.py:20 | After `d.pop(k, None)`, `k` is absent and every other key keeps its value. The key order is the old order with `k`'s position cut out. An absent `k` leaves the dict as it was. |
| OrderedMaps.Without | backend/game_state.py:20 | Deleting a key leaves exactly the other keys and introduces no repetition. |
| OrderedMaps.WithoutAt | backend/game_state.py:20 | Deleting a key from a repetition-free order removes only that key's position. The keys before and after it keep their relative order. |
| OrderedMaps.PutIdempotent | backend/game_state.py:17 | Assigning the same value to the same key twice equals assigning it once. |
| OrderedMaps.PutExistingKeepsOrder | backend/game_state.py:17 | Re-assigning an existing key does not move it. |
| OrderedMaps.RemoveAfterPutNew | backend/game_state.py:17-20 | Adding a new key and then popping it restores the dict. |

## Left out

- `backend/app.py` is not part of this model. It is Flask, Socket.IO and MySQL plumbing that never calls `GameState`. This covers the table definitions, the JWT token with its wall-clock expiry, the socket handlers with their SQL role check and door logging, the `/api/status` query and server startup.
- The admin-password comparison against an environment variable is left out. It depends on the process environment and the socket emit.
- Transport, broadcast fan-out and the gevent async mode are left out. They are concurrency and I/O concerns. The model treats every method call as atomic.
- Sids, roles, names, door sides and door actions are modelled as strings. The admin slot and the arguments of `set_admin` and `is_admin` are `Option<Sid>`, so `set_admin(None)` clearing the slot and `is_admin(None)` holding on a fresh state are modelled.
- The `TypeError` that Python raises for an unhashable sid (in `add_player`, `remove_player` and `validate_player`) or an unhashable door side (in `update_door`) is not modelled. Every string is hashable.
- Roles, names and actions of other Python types are not modelled; for example, `data.get('name')` may be `None`.
- The payload of `validate_move` is an opaque type parameter, because the stub never looks at it.
- `remove_player` is modelled as a lookup followed by a deletion. Together they give what `dict.pop(sid, None)` returns and leaves behind.
- Game.GameState: its fields are public, as Python attributes are, so client code may assign `currentNight`, `energy` or any other field directly. The frames prove only that the class's own methods leave night and energy alone. In particular `Valid()` is an obligation on such clients, and the model does not promise that night and energy stay at 1 and 240 for the object's whole lifetime.
