/** The expiry sweep shared by both tables: `query.filter(expires_at < now)`
    selects the expired rows, each is deleted, and their number is returned.
    Rows are generic; `expiresAt` projects a row onto its expiry stamp. */
module Expiry {

  /** The rows a sweep at `now` keeps, in their original order. */
  function Live<T(!new)>(rows: seq<T>, expiresAt: T -> nat, now: nat): (kept: seq<T>)
    ensures |kept| <= |rows|
    ensures forall x :: x in kept <==> x in rows && expiresAt(x) >= now
  {
    if rows == [] then []
    else
      var rest := Live(rows[1..], expiresAt, now);
      assert forall x :: x in rows <==> x == rows[0] || x in rows[1..];
      if expiresAt(rows[0]) < now then rest else [rows[0]] + rest
  }

  /** The rows a sweep at `now` deletes, in their original order. */
  function Expired<T(!new)>(rows: seq<T>, expiresAt: T -> nat, now: nat): (gone: seq<T>)
    ensures |gone| <= |rows|
    ensures forall x :: x in gone <==> x in rows && expiresAt(x) < now
  {
    if rows == [] then []
    else
      var rest := Expired(rows[1..], expiresAt, now);
      assert forall x :: x in rows <==> x == rows[0] || x in rows[1..];
      if expiresAt(rows[0]) < now then [rows[0]] + rest else rest
  }

  /** Every row is either kept or deleted, never both and never duplicated. */
  lemma {:induction false} Partition<T(!new)>(rows: seq<T>, expiresAt: T -> nat, now: nat)
    ensures multiset(Live(rows, expiresAt, now)) + multiset(Expired(rows, expiresAt, now)) == multiset(rows)
    ensures |Live(rows, expiresAt, now)| + |Expired(rows, expiresAt, now)| == |rows|
  {
    if rows != [] {
      Partition(rows[1..], expiresAt, now);
      assert rows == [rows[0]] + rows[1..];
    }
  }

  /** A sweep deletes the expired rows and reports how many it deleted. */
  function Sweep<T(!new)>(rows: seq<T>, expiresAt: T -> nat, now: nat): (r: (seq<T>, nat))
    ensures r.0 == Live(rows, expiresAt, now)
    ensures r.1 == |Expired(rows, expiresAt, now)| == |rows| - |r.0|
    ensures multiset(r.0) + multiset(Expired(rows, expiresAt, now)) == multiset(rows)
  {
    Partition(rows, expiresAt, now);
    (Live(rows, expiresAt, now), |rows| - |Live(rows, expiresAt, now)|)
  }

  /** Sweeping at `now1` and then at a later `now2` is sweeping at `now2`:
      nothing an earlier sweep deleted would have survived a later one. */
  lemma {:induction false} LiveLater<T(!new)>(rows: seq<T>, expiresAt: T -> nat, now1: nat, now2: nat)
    requires now1 <= now2
    ensures Live(Live(rows, expiresAt, now1), expiresAt, now2) == Live(rows, expiresAt, now2)
  {
    if rows != [] {
      LiveLater(rows[1..], expiresAt, now1, now2);
    }
  }

  /** Consequently a second sweep at the same instant deletes nothing. */
  lemma SweepIdempotent<T(!new)>(rows: seq<T>, expiresAt: T -> nat, now: nat)
    ensures Sweep(Sweep(rows, expiresAt, now).0, expiresAt, now).0 == Sweep(rows, expiresAt, now).0
    ensures Sweep(Sweep(rows, expiresAt, now).0, expiresAt, now).1 == 0
  {
    LiveLater(rows, expiresAt, now, now);
  }

  /** Rows that are kept keep their relative order: the kept rows are
      exactly the rows of any prefix kept, followed by those of the rest. */
  lemma {:induction false} LiveAppend<T(!new)>(a: seq<T>, b: seq<T>, expiresAt: T -> nat, now: nat)
    ensures Live(a + b, expiresAt, now) == Live(a, expiresAt, now) + Live(b, expiresAt, now)
  {
    if a != [] {
      assert (a + b)[1..] == a[1..] + b;
      LiveAppend(a[1..], b, expiresAt, now);
    } else {
      assert a + b == b;
    }
  }
}
