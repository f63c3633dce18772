/** The claim store: the `Claims` table behind the application's database
    context, keyed by `ClaimID`. Controllers look a claim up (`FindAsync`,
    `FirstOrDefaultAsync`), obtain a `Claim` entity, change it through its own
    methods and save it back (`SaveChangesAsync`); a new claim is added with a
    fresh identity value. Read-side queries see the table as the list of its
    rows in ascending `ClaimID` order. */
module Store {
  import opened Results
  import opened Claims
  import opened Folds

  /** Every row is stored under its own identifier. */
  predicate KeyedById(m: map<int, ClaimRow>) {
    forall k | k in m :: m[k].claimId == k
  }

  /** The rows of `m` whose keys lie in [lo, hi), in ascending key order. */
  function RowsFrom(m: map<int, ClaimRow>, lo: int, hi: int): seq<ClaimRow>
    decreases hi - lo
  {
    if lo >= hi then []
    else if lo in m then [m[lo]] + RowsFrom(m, lo + 1, hi)
    else RowsFrom(m, lo + 1, hi)
  }

  /** `RowsFrom` lists exactly the stored rows with keys in [lo, hi), each once,
      in strictly ascending identifier order. */
  lemma {:induction false} RowsFromSpec(m: map<int, ClaimRow>, lo: int, hi: int)
    requires KeyedById(m)
    ensures forall c :: c in RowsFrom(m, lo, hi) <==>
              lo <= c.claimId < hi && c.claimId in m && m[c.claimId] == c
    ensures forall i, j | 0 <= i < j < |RowsFrom(m, lo, hi)| ::
              RowsFrom(m, lo, hi)[i].claimId < RowsFrom(m, lo, hi)[j].claimId
    decreases hi - lo
  {
    if lo < hi {
      RowsFromSpec(m, lo + 1, hi);
      var tail := RowsFrom(m, lo + 1, hi);
      if lo in m {
        var rows := [m[lo]] + tail;
        assert RowsFrom(m, lo, hi) == rows;
        forall i, j | 0 <= i < j < |rows| ensures rows[i].claimId < rows[j].claimId {
          if i == 0 {
            assert rows[j] in tail;
          } else {
            assert rows[i] == tail[i - 1] && rows[j] == tail[j - 1];
          }
        }
      }
    }
  }

  /** No two rows share an identifier. */
  predicate DistinctIds(rows: seq<ClaimRow>) {
    forall i, j | 0 <= i < j < |rows| :: rows[i].claimId != rows[j].claimId
  }

  /** In a list with distinct identifiers an identifier names one row. */
  lemma SameIdSameRow(rows: seq<ClaimRow>, c: ClaimRow, d: ClaimRow)
    requires DistinctIds(rows) && c in rows && d in rows && c.claimId == d.claimId
    ensures c == d
  {
    var i :| 0 <= i < |rows| && rows[i] == c;
    var j :| 0 <= j < |rows| && rows[j] == d;
    assert i == j;
  }

  /** `FirstOrDefault(c => c.ClaimID == id)`: the first row with that
      identifier, or nothing when no row has it. */
  function Lookup(rows: seq<ClaimRow>, id: int): (r: Option<ClaimRow>)
    ensures r.Some? ==> r.value in rows && r.value.claimId == id
    ensures r.None? <==> forall c | c in rows :: c.claimId != id
  {
    if rows == [] then None
    else if rows[0].claimId == id then Some(rows[0])
    else Lookup(rows[1..], id)
  }

  /** In a list with distinct identifiers, the row `Lookup` finds is the only
      row with that identifier. */
  lemma LookupUnique(rows: seq<ClaimRow>, id: int)
    requires DistinctIds(rows) && Lookup(rows, id).Some?
    ensures forall d | d in rows && d.claimId == id :: d == Lookup(rows, id).value
  {
    forall d | d in rows && d.claimId == id ensures d == Lookup(rows, id).value {
      SameIdSameRow(rows, Lookup(rows, id).value, d);
    }
  }

  /** Replacing the row stored under `id` keeps the number of listed rows and
      moves a row satisfying `p` in or out of the count only at `id`. */
  lemma {:induction false} RowsFromUpdate(m: map<int, ClaimRow>, id: int, r: ClaimRow, lo: int, hi: int, p: ClaimRow -> bool)
    requires id in m
    ensures |RowsFrom(m[id := r], lo, hi)| == |RowsFrom(m, lo, hi)|
    ensures Count(RowsFrom(m[id := r], lo, hi), p) + (if lo <= id < hi && p(m[id]) then 1 else 0)
         == Count(RowsFrom(m, lo, hi), p) + (if lo <= id < hi && p(r) then 1 else 0)
    decreases hi - lo
  {
    if lo < hi {
      RowsFromUpdate(m, id, r, lo + 1, hi, p);
      var m' := m[id := r];
      var t, t' := RowsFrom(m, lo + 1, hi), RowsFrom(m', lo + 1, hi);
      if lo in m {
        assert ([m[lo]] + t)[1..] == t;
        assert ([m'[lo]] + t')[1..] == t';
      }
    }
  }

  class ClaimDb {
    /** The stored rows, by `ClaimID`. */
    var claims: map<int, ClaimRow>
    /** The identity value the next added claim receives. */
    var nextId: int

    /** Identifiers start at 1 and are below `nextId`; each row is stored under
        its own identifier and is consistent. */
    ghost predicate Valid()
      reads this
    {
      && 1 <= nextId
      && KeyedById(claims)
      && forall k | k in claims :: 1 <= k < nextId && Consistent(claims[k])
    }

    /** An empty store. */
    constructor ()
      ensures Valid() && claims == map[] && nextId == 1
    {
      claims, nextId := map[], 1;
    }

    /** The whole table as a list (`ToListAsync()` on `Claims`). */
    function Table(): seq<ClaimRow>
      reads this
    {
      RowsFrom(claims, 1, nextId)
    }

    /** `FindAsync(id)`: a fresh entity holding the stored row, or null. */
    method Find(id: int) returns (c: Claim?)
      ensures c == null <==> id !in claims
      ensures c != null ==> fresh(c) && c.Row() == claims[id]
    {
      if id in claims {
        c := new Claim.Load(claims[id]);
      } else {
        c := null;
      }
    }

    /** `Add(claim)` followed by `SaveChangesAsync()`: the claim receives the
        next identity value, written back into the entity, and is stored. */
    method Add(c: Claim) returns (id: int)
      requires Valid() && Consistent(c.Row())
      modifies this, c`claimId
      ensures Valid()
      ensures id == old(nextId) && id !in old(claims) && nextId == old(nextId) + 1
      ensures c.Row() == old(c.Row()).(claimId := id)
      ensures claims == old(claims)[id := c.Row()]
    {
      id := nextId;
      c.claimId := id;
      claims := claims[id := c.Row()];
      nextId := nextId + 1;
    }

    /** `SaveChangesAsync()` after changing a loaded entity: its row is replaced. */
    method Save(c: Claim)
      requires Valid() && c.claimId in claims && Consistent(c.Row())
      modifies this
      ensures Valid()
      ensures claims == old(claims)[c.claimId := c.Row()] && nextId == old(nextId)
    {
      claims := claims[c.claimId := c.Row()];
    }
  }

  /** The table lists exactly the stored rows, each once, in ascending
      identifier order. */
  lemma TableSpec(db: ClaimDb)
    requires db.Valid()
    ensures forall c :: c in db.Table() <==> c.claimId in db.claims && db.claims[c.claimId] == c
    ensures forall i, j | 0 <= i < j < |db.Table()| :: db.Table()[i].claimId < db.Table()[j].claimId
    ensures DistinctIds(db.Table())
  {
    RowsFromSpec(db.claims, 1, db.nextId);
  }

  /** Looking an identifier up in the table finds the stored row, if any. */
  lemma LookupTable(db: ClaimDb, id: int)
    requires db.Valid()
    ensures Lookup(db.Table(), id) == if id in db.claims then Some(db.claims[id]) else None
  {
    TableSpec(db);
    if id in db.claims {
      assert db.claims[id] in db.Table();
    }
  }

  /** Every total in the store lies within [0.01, 200000]. */
  lemma StoredTotalsWithinBounds(db: ClaimDb)
    requires db.Valid()
    ensures forall c | c in db.Table() :: 0.01 <= c.totalAmount <= 200000.0
  {
    TableSpec(db);
    forall c | c in db.Table() ensures 0.01 <= c.totalAmount <= 200000.0 {
      StoredTotalWithinBounds(db.claims[c.claimId]);
    }
  }
}
