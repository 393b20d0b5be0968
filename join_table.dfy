/**
 * The many-to-many join tables (`UserSkill`, `MovieGenre`, `ProjectTag`):
 * rows keyed by their own identity, each linking an owner (the user, movie
 * or project) to a target (the skill, genre or tag).
 */
module JoinTable {
  import opened Linq

  datatype Link = Link(owner: int, target: int)

  /** The identities of `owner`'s rows. */
  function RowsOf(table: map<int, Link>, owner: int): set<int> {
    set k | k in table && table[k].owner == owner
  }

  /** The targets `owner` is linked to. */
  function Targets(table: map<int, Link>, owner: int): set<int> {
    set k | k in table && table[k].owner == owner :: table[k].target
  }

  /** An owner has targets exactly when it has rows. */
  lemma RowsTargets(table: map<int, Link>, owner: int)
    ensures RowsOf(table, owner) == {} <==> Targets(table, owner) == {}
  {
    forall x | x in Targets(table, owner)
      ensures exists k :: k in RowsOf(table, owner)
    {
      var k :| k in table && table[k].owner == owner && table[k].target == x;
      assert k in RowsOf(table, owner);
    }
    forall k | k in RowsOf(table, owner)
      ensures table[k].target in Targets(table, owner)
    {
    }
  }

  /** Every row, keyed below `bound`, links one of `owners` to one of `targets`. */
  ghost predicate LinksWithin(table: map<int, Link>, owners: set<int>, targets: set<int>, bound: int) {
    forall k :: k in table ==> k < bound && table[k].owner in owners && table[k].target in targets
  }

  /** An owner outside the admitted ones owns no rows and has no targets. */
  lemma LinksOutside(table: map<int, Link>, owners: set<int>, targets: set<int>, bound: int, owner: int)
    requires LinksWithin(table, owners, targets, bound)
    requires owner !in owners
    ensures RowsOf(table, owner) == {} && Targets(table, owner) == {}
  {
    RowsTargets(table, owner);
  }

  /**
   * One new row per element of `targets`, in order and repetitions included,
   * under the identities the database hands out from `start` on.
   */
  function WithLinks(table: map<int, Link>, owner: int, targets: seq<int>, start: int): map<int, Link>
    decreases |targets|
  {
    if targets == [] then table
    else
      var n := |targets| - 1;
      WithLinks(table, owner, targets[..n], start)[start + n := Link(owner, targets[n])]
  }

  /**
   * Over a table keyed below `start`, the new rows are exactly the keys
   * `start` to `start + |targets| - 1`, the i-th linking `owner` to
   * `targets[i]`, and every old row is kept as it was.
   */
  lemma {:induction false} WithLinksShape(table: map<int, Link>, owner: int, targets: seq<int>, start: int)
    requires forall k :: k in table ==> k < start
    ensures var r := WithLinks(table, owner, targets, start);
            && (forall k {:trigger k in r} :: k in r <==> k in table || start <= k < start + |targets|)
            && (forall k {:trigger r[k]} :: k in table ==> r[k] == table[k])
            && (forall i :: 0 <= i < |targets| ==> r[start + i] == Link(owner, targets[i]))
    decreases |targets|
  {
    if targets != [] {
      var n := |targets| - 1;
      WithLinksShape(table, owner, targets[..n], start);
      var r := WithLinks(table, owner, targets, start);
      forall i | 0 <= i < n
        ensures start + i in r && r[start + i] == Link(owner, targets[i])
      {
        assert targets[..n][i] == targets[i];
      }
    }
  }

  /** The new rows link `owner` to exactly the listed targets and nobody else to anything new. */
  lemma WithLinksTargets(table: map<int, Link>, owner: int, targets: seq<int>, start: int)
    requires forall k :: k in table ==> k < start
    ensures Targets(WithLinks(table, owner, targets, start), owner) == Targets(table, owner) + Elements(targets)
    ensures forall o :: o != owner ==> Targets(WithLinks(table, owner, targets, start), o) == Targets(table, o)
  {
    var r := WithLinks(table, owner, targets, start);
    WithLinksShape(table, owner, targets, start);
    forall k | k in table
      ensures k in r && r[k] == table[k]
    {
    }
    forall x | x in Targets(r, owner)
      ensures x in Targets(table, owner) + Elements(targets)
    {
      var k :| k in r && r[k].owner == owner && r[k].target == x;
      if k !in table {
        assert r[start + (k - start)] == Link(owner, targets[k - start]);
      }
    }
    forall x | x in Elements(targets)
      ensures x in Targets(r, owner)
    {
      var i :| 0 <= i < |targets| && targets[i] == x;
      assert r[start + i].target == x;
    }
    forall k | k in r && k !in table
      ensures r[k].owner == owner
    {
      assert r[start + (k - start)] == Link(owner, targets[k - start]);
    }
    forall o | o != owner
      ensures Targets(r, o) == Targets(table, o)
    {
      forall x | x in Targets(r, o)
        ensures x in Targets(table, o)
      {
        var k :| k in r && r[k].owner == o && r[k].target == x;
      }
    }
  }

  /** Linking an admitted owner to admitted targets keeps the table within its bounds. */
  lemma WithLinksWithin(table: map<int, Link>, owner: int, targets: seq<int>, start: int,
                        owners: set<int>, targetSet: set<int>)
    requires LinksWithin(table, owners, targetSet, start)
    requires owner in owners && Elements(targets) <= targetSet
    ensures LinksWithin(WithLinks(table, owner, targets, start), owners, targetSet, start + |targets|)
  {
    var r := WithLinks(table, owner, targets, start);
    WithLinksShape(table, owner, targets, start);
    forall k | k in r && k !in table
      ensures k < start + |targets| && r[k].owner in owners && r[k].target in targetSet
    {
      assert r[start + (k - start)] == Link(owner, targets[k - start]);
      assert targets[k - start] in Elements(targets);
    }
  }

  /** Every row of `owner` removed: the cascades of the delete handlers. */
  function WithoutOwner(table: map<int, Link>, owner: int): (r: map<int, Link>)
    ensures Targets(r, owner) == {}
    ensures forall k :: k in table && table[k].owner != owner ==> k in r && r[k] == table[k]
    ensures forall k :: k in r ==> k in table && r[k].owner != owner
  {
    table - RowsOf(table, owner)
  }

  /** Removing an owner's rows leaves every other owner's targets as they were. */
  lemma WithoutOwnerTargets(table: map<int, Link>, owner: int)
    ensures forall o :: o != owner ==> Targets(WithoutOwner(table, owner), o) == Targets(table, o)
  {
    var r := WithoutOwner(table, owner);
    forall o | o != owner
      ensures Targets(r, o) == Targets(table, o)
    {
      forall x | x in Targets(table, o)
        ensures x in Targets(r, o)
      {
        var k :| k in table && table[k].owner == o && table[k].target == x;
        assert k in r && r[k] == table[k];
      }
    }
  }

  /** The rows of `owner` whose target is no longer requested. */
  function StaleRows(table: map<int, Link>, owner: int, requested: seq<int>): set<int> {
    set k | k in table && table[k].owner == owner && table[k].target !in requested
  }

  /**
   * The link update of the update handlers: a row for each requested target
   * not linked yet (`requested.Except(current)`), then every stale row
   * removed (`current.Except(requested)`). Rows of other owners and rows
   * still requested are untouched.
   */
  function Reconcile(table: map<int, Link>, owner: int, requested: seq<int>, start: int): (r: map<int, Link>)
    requires forall k :: k in table ==> k < start
    ensures forall k :: k in table && (table[k].owner != owner || table[k].target in requested) ==> k in r && r[k] == table[k]
    ensures forall k :: k in table && table[k].owner == owner && table[k].target !in requested ==> k !in r
    ensures forall k :: k in r && k !in table <==> start <= k < start + |Except(requested, Targets(table, owner))|
    ensures forall k :: k in r && k !in table ==>
              && r[k] == Link(owner, Except(requested, Targets(table, owner))[k - start])
              && r[k].target in requested && r[k].target !in Targets(table, owner)
  {
    var added := Except(requested, Targets(table, owner));
    WithLinksShape(table, owner, added, start);
    var r := WithLinks(table, owner, added, start) - StaleRows(table, owner, requested);
    assert forall k :: k in r && k !in table ==> r[k] == Link(owner, added[k - start]);
    r
  }

  /** After the update the owner is linked to exactly the requested targets. */
  lemma ReconcileTargets(table: map<int, Link>, owner: int, requested: seq<int>, start: int)
    requires forall k :: k in table ==> k < start
    ensures Targets(Reconcile(table, owner, requested, start), owner) == Elements(requested)
    ensures forall o :: o != owner ==> Targets(Reconcile(table, owner, requested, start), o) == Targets(table, o)
  {
    var added := Except(requested, Targets(table, owner));
    var grown := WithLinks(table, owner, added, start);
    var r := Reconcile(table, owner, requested, start);
    WithLinksShape(table, owner, added, start);
    WithLinksTargets(table, owner, added, start);
    forall x | x in Elements(requested)
      ensures x in Targets(r, owner)
    {
      if x in Targets(table, owner) {
        var k :| k in table && table[k].owner == owner && table[k].target == x;
        assert k in r;
      } else {
        assert x in added;
        var i :| 0 <= i < |added| && added[i] == x;
        assert grown[start + i] == Link(owner, x);
        assert start + i !in table;
        assert start + i in r;
      }
    }
    forall o | o != owner
      ensures Targets(r, o) == Targets(table, o)
    {
      forall x | x in Targets(table, o)
        ensures x in Targets(r, o)
      {
        var k :| k in table && table[k].owner == o && table[k].target == x;
        assert k in r;
      }
    }
  }
}
