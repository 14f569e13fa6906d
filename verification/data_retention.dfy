/** The nightly purge of old, returned borrowings. */
module DataRetentionService {
  import opened Wrappers
  import opened BorrowingEntity
  import opened Persistence
  import opened Seqs

  /** How long the borrowing history is kept, in days (two years). */
  const BORROWING_HISTORY_RETENTION_DAYS := 730

  /** The first end date that is still retained on `today`. */
  function Cutoff(today: Date): Date {
    today - BORROWING_HISTORY_RETENTION_DAYS
  }

  /** A row the sweep on `today` purges: inactive, ended strictly before the cutoff. */
  predicate Expired(x: Entity, today: Date) {
    EndedBeforeInactive(x, Cutoff(today))
  }

  /** The store after the sweep on `today`: exactly the rows that are not
      expired, unchanged and in their original order. So no expired row
      survives, an active row is never purged, an inactive row that ended on
      or after the cutoff is kept, and nothing is added. */
  function Retained(rows: seq<Entity>, today: Date): (r: seq<Entity>)
    ensures forall x :: x in r <==> x in rows && !Expired(x, today)
    ensures forall x :: x in rows && x.active ==> x in r
    ensures forall x :: x in rows && !x.active && x.endDate.Some? && x.endDate.value >= Cutoff(today) ==> x in r
    ensures Ascending(rows) ==> Ascending(r)
  {
    var keep := (x: Entity) => !Expired(x, today);
    if Ascending(rows) then
      SelectAscending(rows, keep);
      Select(rows, keep)
    else
      Select(rows, keep)
  }

  /** Sweeping twice on the same day leaves the store as sweeping once. */
  lemma SweepIdempotent(rows: seq<Entity>, today: Date)
    ensures Retained(Retained(rows, today), today) == Retained(rows, today)
  {
    SelectIdempotent(rows, (x: Entity) => !Expired(x, today));
  }

  /** The retention boundary is strict: an inactive row that ended 731 days
      ago is purged, one that ended 729 days ago (or exactly 730) is kept. */
  lemma CutoffIsStrict(x: Entity, today: Date)
    requires !x.active && x.endDate.Some?
    ensures x.endDate.value == today - 731 ==> Expired(x, today)
    ensures x.endDate.value == today - 730 ==> !Expired(x, today)
    ensures x.endDate.value == today - 729 ==> !Expired(x, today)
  {
  }

  /** For a stored row, "not among the first i fetched rows and not sharing
      the next one's id" is "not among the first i + 1 fetched rows", since
      ids identify rows. */
  lemma NextFetched(original: seq<Entity>, expired: seq<Entity>, i: nat, x: Entity)
    requires Ascending(original) && i < |expired| && expired[i] in original && x in original
    ensures (x !in expired[..i] && x.id != expired[i].id) == (x !in expired[..i + 1])
  {
    if x.id == expired[i].id { AscendingUnique(original, x, expired[i]); }
    assert expired[..i + 1] == expired[..i] + [expired[i]];
  }

  /** Deleting the next fetched row, by its id, from what is left of the
      store removes exactly that row. */
  lemma DeleteStep(original: seq<Entity>, expired: seq<Entity>, i: nat, rows: seq<Entity>)
    requires Ascending(original) && i < |expired| && expired[i] in original
    requires rows == Select(original, (x: Entity) => x !in expired[..i])
    ensures Ascending(rows) && expired[i].id.Some?
    ensures RemoveId(rows, expired[i].id.value) == Select(original, (x: Entity) => x !in expired[..i + 1])
  {
    var gone := expired[i];
    SelectAscending(original, (x: Entity) => x !in expired[..i]);
    var k :| 0 <= k < |original| && original[k] == gone;
    assert gone.id.Some?;
    SelectSelect(original, (x: Entity) => x !in expired[..i], (x: Entity) => x.id != Some(gone.id.value),
                 (x: Entity) => x !in expired[..i] && x.id != gone.id);
    forall x | x in original
      ensures (x !in expired[..i] && x.id != gone.id) == (x !in expired[..i + 1])
    {
      NextFetched(original, expired, i, x);
    }
    SelectCongruent(original, (x: Entity) => x !in expired[..i] && x.id != gone.id,
                    (x: Entity) => x !in expired[..i + 1]);
  }

  /** Once every fetched row is deleted, what is left is `Retained`. */
  lemma SweepComplete(original: seq<Entity>, expired: seq<Entity>, today: Date)
    requires forall x :: x in expired <==> x in original && Expired(x, today)
    ensures Select(original, (x: Entity) => x !in expired[..|expired|]) == Retained(original, today)
  {
    assert expired[..|expired|] == expired;
    SelectCongruent(original, (x: Entity) => x !in expired[..|expired|], (x: Entity) => !Expired(x, today));
  }

  /** `cleanupExpiredData`: fetch the expired rows once, then delete them one
      by one; the store ends up as `Retained` of what it held before. */
  method CleanupExpiredData(repo: BorrowingRepository, today: Date)
    requires repo.Valid()
    modifies repo
    ensures repo.Valid() && repo.nextId == old(repo.nextId)
    ensures repo.rows == Retained(old(repo.rows), today)
  {
    var retentionDate := Cutoff(today);
    var expired := repo.FindByEndDateBeforeAndActiveFalse(retentionDate);
    ghost var original := repo.rows;
    SelectAll(original, (x: Entity) => x !in expired[..0]);
    for i := 0 to |expired|
      invariant repo.Valid() && repo.nextId == old(repo.nextId)
      invariant repo.rows == Select(original, (x: Entity) => x !in expired[..i])
    {
      DeleteStep(original, expired, i, repo.rows);
      repo.Delete(expired[i]);
    }
    SweepComplete(original, expired, today);
  }
}
