/** The database maintenance script: metric cleanup, full reset and the menu
    that chooses between them. The database is the set of table names in its
    main schema; listing tables and `DROP TABLE IF EXISTS` are operations on
    that set. */
module Maintenance {
  import opened Text

  type Tables = set<string>

  /** The source-data tables that metric cleanup keeps. */
  const BaseTables: Tables := {"customers", "orders", "order_items"}

  /** The cleanup listing: every table that is not a base table. */
  function MetricTables(db: Tables): Tables {
    set t | t in db && t !in BaseTables
  }

  /** No name occurs twice. */
  predicate Distinct(names: seq<string>) {
    forall i, j :: 0 <= i < j < |names| ==> names[i] != names[j]
  }

  /** `DROP TABLE IF EXISTS` for each name in turn; a name that is not (or no
      longer) a table is skipped without error. */
  function Drop(db: Tables, names: seq<string>): Tables {
    if names == [] then db else Drop(db - {names[0]}, names[1..])
  }

  /** After the drops, exactly the tables that were never named remain. */
  lemma {:induction false} DropSpec(db: Tables, names: seq<string>)
    ensures forall t :: t in Drop(db, names) <==> t in db && t !in names
  {
    if names != [] {
      DropSpec(db - {names[0]}, names[1..]);
      assert forall t :: t in names <==> t == names[0] || t in names[1..];
    }
  }

  /** Dropping the same names a second time changes nothing. */
  lemma DropTwice(db: Tables, names: seq<string>)
    ensures Drop(Drop(db, names), names) == Drop(db, names)
  {
    DropSpec(db, names);
    DropSpec(Drop(db, names), names);
  }

  /** The state metric cleanup leaves: the listed tables are gone, so only
      base tables remain, and every base table that was there remains. */
  function Cleanup(db: Tables): (r: Tables)
    ensures r == db * BaseTables
    ensures r <= BaseTables
  {
    db - MetricTables(db)
  }

  /** A second cleanup finds no metric table and changes nothing. */
  lemma CleanupIdempotent(db: Tables)
    ensures MetricTables(Cleanup(db)) == {}
    ensures Cleanup(Cleanup(db)) == Cleanup(db)
  {
  }

  /** Drop every table of the listing, one at a time, in whatever order the
      engine lists them. Returns the remaining tables and the drop order. */
  method DropListed(db: Tables, listing: Tables) returns (r: Tables, dropped: seq<string>)
    ensures Distinct(dropped)
    ensures forall t :: t in dropped <==> t in listing
    ensures r == Drop(db, dropped)
    ensures r == db - listing
  {
    var pending := listing;
    r, dropped := db, [];
    while pending != {}
      invariant pending <= listing
      invariant forall t :: t in dropped <==> t in listing && t !in pending
      invariant Distinct(dropped)
      invariant r == db - (listing - pending)
      decreases pending
    {
      var t :| t in pending;
      r := r - {t};
      dropped := dropped + [t];
      pending := pending - {t};
    }
    DropSpec(db, dropped);
  }

  /** `cleanup_database`: list the non-base tables and drop each of them. */
  method CleanupDatabase(db: Tables) returns (ok: bool, r: Tables, dropped: seq<string>)
    ensures ok
    ensures r == Cleanup(db)
    ensures Distinct(dropped)
    ensures forall t :: t in dropped <==> t in db && t !in BaseTables
    ensures r == Drop(db, dropped)
  {
    r, dropped := DropListed(db, MetricTables(db));
    ok := true;
  }

  /** The confirmation test `confirm.lower() == 'y'`. */
  predicate Confirmed(answer: string) {
    Lower(answer) == "y"
  }

  /** Exactly the answers "y" and "Y" confirm; "yes", "" and the rest do not. */
  lemma ConfirmedIff(answer: string)
    ensures Confirmed(answer) <==> answer == "y" || answer == "Y"
  {
  }

  /** The answers the prompt most often gets. */
  lemma ConfirmationExamples()
    ensures Confirmed("y") && Confirmed("Y")
    ensures !Confirmed("yes") && !Confirmed("n") && !Confirmed("")
  {
  }

  /** `reset_database`: unless the answer confirms, nothing happens and the
      result is failure; otherwise every table, base tables included, is
      listed and dropped. */
  method ResetDatabase(db: Tables, answer: string) returns (ok: bool, r: Tables, dropped: seq<string>)
    ensures ok <==> Confirmed(answer)
    ensures ok ==> r == {} && Distinct(dropped) && forall t :: t in dropped <==> t in db
    ensures !ok ==> r == db && dropped == []
    ensures r == Drop(db, dropped)
  {
    if Lower(answer) != "y" {
      return false, db, [];
    }
    r, dropped := DropListed(db, db);
    ok := true;
  }

  /** What the menu did. */
  datatype Outcome = CleanedUp | ResetDone | ResetCancelled | InvalidChoice

  /** The script's menu: "1" cleans up, "2" resets behind the confirmation,
      anything else is rejected. */
  method Menu(db: Tables, choice: string, answer: string) returns (outcome: Outcome, r: Tables)
    ensures choice == "1" ==> outcome == CleanedUp && r == Cleanup(db)
    ensures choice == "2" ==> if Confirmed(answer) then outcome == ResetDone && r == {}
                              else outcome == ResetCancelled && r == db
    ensures choice != "1" && choice != "2" ==> outcome == InvalidChoice && r == db
    ensures r <= db
    ensures outcome != ResetDone ==> db * BaseTables <= r
  {
    if choice == "1" {
      var ok, dropped;
      ok, r, dropped := CleanupDatabase(db);
      outcome := CleanedUp;
    } else if choice == "2" {
      var ok, dropped;
      ok, r, dropped := ResetDatabase(db, answer);
      outcome := if ok then ResetDone else ResetCancelled;
    } else {
      r := db;
      outcome := InvalidChoice;
    }
  }
}
