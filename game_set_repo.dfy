/** `GameSetRepo` (`backend/app/repos/game_sets.py`): the `game_sets` table is a set of
    names. */
module GameSetRepo {
  import opened Database

  /** `exists`: whether a row with this name is present. */
  predicate Exists(t: Tables, name: string) {
    name in t.gameSets
  }

  /** `create`: `INSERT ... ON CONFLICT DO NOTHING`, so the name is present afterwards
      and nothing else changes. */
  method Create(db: Db, name: string)
    modifies db
    ensures db.State() == old(db.State()).(gameSets := old(db.gameSets) + {name})
    ensures Exists(db.State(), name)
    ensures forall other :: other != name ==> (Exists(db.State(), other) <==> Exists(old(db.State()), other))
  {
    db.gameSets := db.gameSets + {name};
  }

  /** The table after `create` as a function of the table before. */
  function Created(t: Tables, name: string): (r: Tables)
    ensures Exists(r, name)
    ensures forall other :: other != name ==> (Exists(r, other) <==> Exists(t, other))
    ensures r.rounds == t.rounds && r.items == t.items && r.templates == t.templates
    ensures r.templateItems == t.templateItems && r.nextId == t.nextId
  {
    t.(gameSets := t.gameSets + {name})
  }

  /** Creating a game set twice is the same as creating it once, and creating one that
      exists changes nothing. */
  lemma CreateIdempotent(t: Tables, name: string)
    ensures Created(Created(t, name), name) == Created(t, name)
    ensures Exists(t, name) ==> Created(t, name) == t
  {
    assert Created(Created(t, name), name).gameSets == Created(t, name).gameSets;
    if Exists(t, name) {
      assert t.gameSets + {name} == t.gameSets;
    }
  }
}
