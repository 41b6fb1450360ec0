/** The text of a history, as one list of records. */
module HistoryText {
  import opened CTypes
  import opened ProjectObject

  ghost predicate AllRecorded(history: seq<Version>) {
    forall k :: 0 <= k < |history| ==> history[k].commit.Some?
  }

  /** The commit records of the versions, oldest first, each with its empty line. */
  ghost function Records(history: seq<Version>): seq<Content>
    requires AllRecorded(history)
  {
    seq(|history|, k requires 0 <= k < |history| => history[k].commit.value + [NEWLINE, NEWLINE])
  }

  lemma {:induction false} ConcatMore(parts: seq<Content>, last: Content)
    ensures Concat(parts + [last]) == Concat(parts) + last
  {
    if parts == [] {
      assert [] + [last] == [last] && [last][1..] == [];
    } else {
      assert (parts + [last])[1..] == parts[1..] + [last];
      ConcatMore(parts[1..], last);
      Associative(parts[0], Concat(parts[1..]), last);
    }
  }

  lemma RecordsMore(history: seq<Version>)
    requires history != [] && AllRecorded(history)
    ensures var n := |history| - 1;
      AllRecorded(history[..n])
      && Records(history) == Records(history[..n]) + [history[n].commit.value + [NEWLINE, NEWLINE]]
  {
  }

  /** When every version has its record, the text is all of them, in order. */
  lemma {:induction false} CommitsInOrder(history: seq<Version>)
    requires AllRecorded(history)
    ensures Commits(history) == Some(Concat(Records(history)))
  {
    if history != [] {
      var n := |history| - 1;
      RecordsMore(history);
      CommitsInOrder(history[..n]);
      var last := history[n].commit.value + [NEWLINE, NEWLINE];
      ConcatMore(Records(history[..n]), last);
      Associative(Concat(Records(history[..n])), history[n].commit.value, [NEWLINE, NEWLINE]);
    }
  }

  lemma {:induction false} CommitsIff(history: seq<Version>)
    ensures Commits(history) == None <==> exists k :: 0 <= k < |history| && history[k].commit == None
  {
    if history != [] {
      var n := |history| - 1;
      CommitsIff(history[..n]);
      if k :| 0 <= k < |history| && history[k].commit == None {
        assert k < n ==> history[..n][k].commit == None;
      }
    }
  }

  lemma CommitsAre(history: seq<Version>)
    ensures Commits(history) == if AllRecorded(history) then Some(Concat(Records(history))) else None
  {
    CommitsIff(history);
    if AllRecorded(history) {
      CommitsInOrder(history);
    } else {
      var k :| 0 <= k < |history| && history[k].commit.None?;
      assert history[k].commit == None;
    }
  }
}
