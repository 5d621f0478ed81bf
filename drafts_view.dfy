/** The team list of the drafts page (src/components/drafts/server.tsx): the
    user's teams as fetched, newest first; the first ACTIVE one is moved to the
    front and the other ACTIVE ones, of which a valid store has none, are
    dropped. Without an ACTIVE team the page shows "No active team" instead. */
module DraftsView {
  import opened Domain

  /** `drafts.find(...)`: the first ACTIVE team in fetched order. */
  function FirstActive(drafts: seq<FplTeam>): (r: Option<FplTeam>)
    ensures r.Some? ==> r.value in drafts && r.value.status == Active
    ensures r.Some? ==> exists i :: 0 <= i < |drafts| && drafts[i] == r.value
                          && forall j :: 0 <= j < i ==> drafts[j].status != Active
    ensures r.None? <==> forall i :: 0 <= i < |drafts| ==> drafts[i].status != Active
  {
    if drafts == [] then None
    else if drafts[0].status == Active then Some(drafts[0])
    else
      var rest := FirstActive(drafts[1..]);
      if rest.Some? then
        ghost var i :| 0 <= i < |drafts[1..]| && drafts[1..][i] == rest.value
                        && forall j :: 0 <= j < i ==> drafts[1..][j].status != Active;
        assert drafts[i + 1] == rest.value;
        rest
      else rest
  }

  /** `drafts.filter(...)`: the teams that are not ACTIVE, in fetched order. */
  function NonActive(drafts: seq<FplTeam>): (r: seq<FplTeam>)
    ensures |r| <= |drafts|
    ensures forall k :: 0 <= k < |r| ==> r[k] in drafts && r[k].status != Active
    ensures forall k :: 0 <= k < |drafts| && drafts[k].status != Active ==> drafts[k] in r
  {
    if drafts == [] then []
    else (if drafts[0].status != Active then [drafts[0]] else []) + NonActive(drafts[1..])
  }

  /** `formattedDrafts`: the non-active teams, with the first ACTIVE team
      pushed onto the front when there is one. */
  method FormatDrafts(drafts: seq<FplTeam>) returns (formatted: seq<FplTeam>)
    ensures FirstActive(drafts).Some? ==>
              |formatted| == |NonActive(drafts)| + 1
              && formatted[0] == FirstActive(drafts).value && formatted[1..] == NonActive(drafts)
    ensures FirstActive(drafts).None? ==> formatted == NonActive(drafts)
    ensures formatted == Formatted(drafts)
  {
    var activeDraft := FirstActive(drafts);
    formatted := NonActive(drafts);
    if activeDraft.Some? {
      formatted := [activeDraft.value] + formatted;
    }
  }

  /** The list as a value: what `FormatDrafts` leaves in `formattedDrafts`. */
  function Formatted(drafts: seq<FplTeam>): (r: seq<FplTeam>)
    ensures |r| == |NonActive(drafts)| + (if FirstActive(drafts).Some? then 1 else 0)
    ensures FirstActive(drafts).Some? ==> r[0].status == Active && r[1..] == NonActive(drafts)
    ensures FirstActive(drafts).None? ==> forall k :: 0 <= k < |r| ==> r[k].status != Active
  {
    match FirstActive(drafts)
    case Some(t) => [t] + NonActive(drafts)
    case None => NonActive(drafts)
  }

  /** The page shows "No active team" when the list is empty or no team is
      ACTIVE. */
  predicate ShowsNoActiveTeam(drafts: seq<FplTeam>)
  {
    |Formatted(drafts)| == 0 || FirstActive(drafts).None?
  }

  /** The message is shown exactly when the user has no ACTIVE team; the list
      then is just the non-active teams and never starts with an ACTIVE one. */
  lemma NoActiveTeamMessage(drafts: seq<FplTeam>)
    ensures ShowsNoActiveTeam(drafts) <==> forall t :: t in drafts ==> t.status != Active
    ensures !ShowsNoActiveTeam(drafts) ==> Formatted(drafts)[0].status == Active
    ensures !ShowsNoActiveTeam(drafts) ==> forall k :: 1 <= k < |Formatted(drafts)| ==> Formatted(drafts)[k].status != Active
  {
    if FirstActive(drafts).Some? {
      assert Formatted(drafts)[0] == FirstActive(drafts).value;
      assert Formatted(drafts)[1..] == NonActive(drafts);
      forall k | 1 <= k < |Formatted(drafts)| ensures Formatted(drafts)[k].status != Active {
        assert Formatted(drafts)[k] == NonActive(drafts)[k - 1];
      }
    } else {
      forall t | t in drafts ensures t.status != Active {
        var i :| 0 <= i < |drafts| && drafts[i] == t;
      }
    }
  }

  /** NonActive keeps every non-active team as often as the input has it. */
  lemma {:induction false} NonActiveMultiset(drafts: seq<FplTeam>)
    ensures forall t: FplTeam :: t.status != Active ==> multiset(NonActive(drafts))[t] == multiset(drafts)[t]
    ensures forall t: FplTeam :: t.status == Active ==> multiset(NonActive(drafts))[t] == 0
  {
    if drafts != [] {
      NonActiveMultiset(drafts[1..]);
      assert drafts == [drafts[0]] + drafts[1..];
    }
  }

  /** The order of the non-active teams is the fetched one: NonActive of a
      concatenation is the concatenation of the parts. */
  lemma {:induction false} NonActiveConcat(a: seq<FplTeam>, b: seq<FplTeam>)
    ensures NonActive(a + b) == NonActive(a) + NonActive(b)
  {
    if a != [] {
      assert (a + b)[1..] == a[1..] + b;
      NonActiveConcat(a[1..], b);
    } else {
      assert a + b == b;
    }
  }

  /** Teams that occur once in the fetched list occur once in the shown list. */
  lemma NoTeamTwice(drafts: seq<FplTeam>)
    requires forall i, j :: 0 <= i < j < |drafts| ==> drafts[i] != drafts[j]
    ensures forall i, j :: 0 <= i < j < |Formatted(drafts)| ==> Formatted(drafts)[i] != Formatted(drafts)[j]
  {
    NonActiveMultiset(drafts);
    var f := Formatted(drafts);
    forall t: FplTeam ensures multiset(f)[t] <= 1 {
      DistinctAtMostOnce(drafts, t);
      if FirstActive(drafts).Some? {
        assert multiset(f) == multiset{FirstActive(drafts).value} + multiset(NonActive(drafts));
      }
    }
    forall i, j | 0 <= i < j < |f| ensures f[i] != f[j] {
      if f[i] == f[j] {
        TwiceInMultiset(f, i, j);
        assert false;
      }
    }
  }

  lemma {:induction false} DistinctAtMostOnce(s: seq<FplTeam>, t: FplTeam)
    requires forall i, j :: 0 <= i < j < |s| ==> s[i] != s[j]
    ensures multiset(s)[t] <= 1
  {
    if s != [] {
      assert s == [s[0]] + s[1..];
      DistinctAtMostOnce(s[1..], t);
      if s[0] == t {
        assert t !in s[1..];
      }
    }
  }

  lemma TwiceInMultiset(s: seq<FplTeam>, i: nat, j: nat)
    requires i < j < |s| && s[i] == s[j]
    ensures multiset(s)[s[i]] >= 2
  {
    assert s == s[..i] + [s[i]] + s[i + 1..j] + [s[j]] + s[j + 1..];
  }

  /** With at most one ACTIVE team, the first n teams hold an ACTIVE team t
      once when t is that team and it is among them, and otherwise not at all. */
  lemma {:induction false} ActiveCountUpTo(drafts: seq<FplTeam>, i: nat, t: FplTeam, n: nat)
    requires forall i, j :: 0 <= i < |drafts| && 0 <= j < |drafts| && drafts[i].status == Active && drafts[j].status == Active ==> i == j
    requires i < |drafts| && drafts[i].status == Active
    requires t.status == Active && n <= |drafts|
    ensures multiset(drafts[..n])[t] == if t == drafts[i] && i < n then 1 else 0
  {
    if n > 0 {
      ActiveCountUpTo(drafts, i, t, n - 1);
      assert drafts[..n] == drafts[..n - 1] + [drafts[n - 1]];
      if drafts[n - 1] == t {
        assert n - 1 == i;
      }
    }
  }

  /** When at most one team is ACTIVE, which a valid store guarantees for the
      teams of one user, the shown list is a reordering of the fetched list:
      nothing is dropped. */
  lemma OneActiveNothingDropped(drafts: seq<FplTeam>)
    requires forall i, j :: 0 <= i < |drafts| && 0 <= j < |drafts| && drafts[i].status == Active && drafts[j].status == Active ==> i == j
    ensures multiset(Formatted(drafts)) == multiset(drafts)
  {
    if FirstActive(drafts).None? {
      NoActiveNothingDropped(drafts);
    } else {
      var a := FirstActive(drafts).value;
      var i :| 0 <= i < |drafts| && drafts[i] == a;
      var f := [a] + NonActive(drafts);
      assert Formatted(drafts) == f;
      forall t: FplTeam ensures multiset(f)[t] == multiset(drafts)[t] {
        OneActiveCount(drafts, i, t);
      }
    }
  }

  lemma OneActiveCount(drafts: seq<FplTeam>, i: nat, t: FplTeam)
    requires forall i, j :: 0 <= i < |drafts| && 0 <= j < |drafts| && drafts[i].status == Active && drafts[j].status == Active ==> i == j
    requires i < |drafts| && drafts[i].status == Active
    ensures multiset([drafts[i]] + NonActive(drafts))[t] == multiset(drafts)[t]
  {
    NonActiveMultiset(drafts);
    if t.status == Active {
      ActiveCountUpTo(drafts, i, t, |drafts|);
      assert drafts[..|drafts|] == drafts;
    } else {
      assert t != drafts[i];
    }
  }

  lemma NoActiveNothingDropped(drafts: seq<FplTeam>)
    requires FirstActive(drafts).None?
    ensures multiset(NonActive(drafts)) == multiset(drafts)
  {
    NonActiveMultiset(drafts);
    forall t: FplTeam ensures multiset(NonActive(drafts))[t] == multiset(drafts)[t] {
      if t.status == Active {
        assert t !in drafts;
      }
    }
  }
}
