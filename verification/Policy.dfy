/** Dependency policy: waivers with dates, and the assessment of one component (scripts/dependency_policy.py and
    `base_rules` of scripts/dependency_admission.py). Days are integers. */
module Policy {
  import opened Ordering
  import opened Text

  const MAX_WAIVERS := 128
  const MAX_WAIVER_DAYS := 90
  const MAX_FINDINGS := 128

  datatype Coordinates = Coordinates(ecosystem: string, name: string, version: string)

  datatype Kind = ForLicense | ForVulnerability

  /** An exception row. `wellFormed` stands for its shape, owner, reason and review link, which nothing else uses. */
  datatype Waiver = Waiver(
    id: string, target: Coordinates, kind: Kind, value: string, reviewed: int, expires: int, wellFormed: bool)

  /** The text recognisers the assessment uses, and the licence verdict under the policy's allow-lists. */
  datatype Vocabulary = Vocabulary(
    isCoordinates: Coordinates -> bool,
    isAdvisory: string -> bool,
    parses: string -> bool,
    evaluates: string -> bool,
    isUnknown: string -> bool,
    verdict: Option<string> -> Option<bool>)

  /** An expression checked once against empty lists never fails later, and no licence is never allowed. */
  ghost predicate Coherent(voc: Vocabulary) {
    voc.verdict(None) == Some(false) && forall e :: voc.parses(e) ==> voc.verdict(Some(e)).Some?
  }

  // ---------------------------------------------------------------- validating waivers

  /** `DEP-` and four to eight digits. */
  predicate IsWaiverId(id: string) {
    8 <= |id| <= 12 && StartsWith(id, "DEP-") && forall i | 4 <= i < |id| :: IsDigit(id[i])
  }

  /** A licence waiver is for the unknown licence or for an expression that evaluates, any other for an advisory. */
  predicate ValueFits(voc: Vocabulary, w: Waiver) {
    match w.kind
    case ForLicense => w.value == "NOASSERTION" || voc.evaluates(w.value)
    case ForVulnerability => voc.isAdvisory(w.value)
  }

  predicate RowValid(voc: Vocabulary, w: Waiver, today: int) {
    && w.wellFormed && IsWaiverId(w.id) && voc.isCoordinates(w.target) && ValueFits(voc, w)
    && w.reviewed <= today < w.expires && 1 <= w.expires - w.reviewed <= MAX_WAIVER_DAYS
  }

  function ScopeOf(w: Waiver): (Coordinates, Kind, string) {
    (w.target, w.kind, w.value)
  }

  predicate Unrepeated(rows: seq<Waiver>) {
    forall i, j | 0 <= i < j < |rows| :: rows[i].id != rows[j].id && ScopeOf(rows[i]) != ScopeOf(rows[j])
  }

  /** What `validate_policy` accepts on a day. */
  predicate PolicyValid(voc: Vocabulary, rows: seq<Waiver>, today: int) {
    |rows| <= MAX_WAIVERS && (forall i | 0 <= i < |rows| :: RowValid(voc, rows[i], today)) && Unrepeated(rows)
  }

  function Ids(rows: seq<Waiver>): set<string> {
    set i | 0 <= i < |rows| :: rows[i].id
  }

  function Scopes(rows: seq<Waiver>): set<(Coordinates, Kind, string)> {
    set i | 0 <= i < |rows| :: ScopeOf(rows[i])
  }

  lemma IdsStep(rows: seq<Waiver>, w: Waiver)
    ensures Ids(rows + [w]) == Ids(rows) + {w.id}
  {
    var longer := rows + [w];
    assert longer[|rows|] == w && forall i | 0 <= i < |rows| :: longer[i] == rows[i];
    assert forall i | 0 <= i < |rows| :: rows[i].id in Ids(rows) && longer[i].id in Ids(longer);
  }

  lemma ScopesStep(rows: seq<Waiver>, w: Waiver)
    ensures Scopes(rows + [w]) == Scopes(rows) + {ScopeOf(w)}
  {
    var longer := rows + [w];
    assert longer[|rows|] == w && forall i | 0 <= i < |rows| :: longer[i] == rows[i];
    assert forall i | 0 <= i < |rows| :: ScopeOf(rows[i]) in Scopes(rows) && ScopeOf(longer[i]) in Scopes(longer);
  }

  predicate Repeats(rows: seq<Waiver>, w: Waiver) {
    exists i | 0 <= i < |rows| :: rows[i].id == w.id || ScopeOf(rows[i]) == ScopeOf(w)
  }

  lemma RepeatsMeaning(rows: seq<Waiver>, w: Waiver)
    ensures Repeats(rows, w) <==> w.id in Ids(rows) || ScopeOf(w) in Scopes(rows)
  {
    assert forall i | 0 <= i < |rows| :: rows[i].id in Ids(rows) && ScopeOf(rows[i]) in Scopes(rows);
  }

  lemma UnrepeatedStep(rows: seq<Waiver>, w: Waiver)
    ensures Unrepeated(rows + [w]) <==> Unrepeated(rows) && !Repeats(rows, w)
  {
    var longer := rows + [w];
    assert longer[|rows|] == w && forall i | 0 <= i < |rows| :: longer[i] == rows[i];
    if Unrepeated(longer) {
      forall i, j | 0 <= i < j < |rows| ensures rows[i].id != rows[j].id && ScopeOf(rows[i]) != ScopeOf(rows[j]) {
        assert longer[i] == rows[i] && longer[j] == rows[j];
      }
      forall i | 0 <= i < |rows| ensures rows[i].id != w.id && ScopeOf(rows[i]) != ScopeOf(w) {
        assert longer[i].id != longer[|rows|].id;
      }
    }
  }

  lemma Noted(rows: seq<Waiver>, i: nat)
    requires i < |rows|
    ensures Unrepeated(rows[..i + 1]) <==>
            Unrepeated(rows[..i]) && rows[i].id !in Ids(rows[..i]) && ScopeOf(rows[i]) !in Scopes(rows[..i])
    ensures Ids(rows[..i + 1]) == Ids(rows[..i]) + {rows[i].id}
    ensures Scopes(rows[..i + 1]) == Scopes(rows[..i]) + {ScopeOf(rows[i])}
    ensures Unrepeated(rows) ==> Unrepeated(rows[..i + 1])
  {
    PrefixStep(rows, i);
    IdsStep(rows[..i], rows[i]);
    ScopesStep(rows[..i], rows[i]);
    UnrepeatedStep(rows[..i], rows[i]);
    RepeatsMeaning(rows[..i], rows[i]);
  }

  /** The loop of `validate_policy`. */
  method ValidatePolicy(voc: Vocabulary, rows: seq<Waiver>, today: int) returns (ok: bool)
    ensures ok <==> PolicyValid(voc, rows, today)
  {
    if |rows| > MAX_WAIVERS {
      return false;
    }
    var ids: set<string>, scopes: set<(Coordinates, Kind, string)> := {}, {};
    for i := 0 to |rows|
      invariant forall k | 0 <= k < i :: RowValid(voc, rows[k], today)
      invariant Unrepeated(rows[..i]) && ids == Ids(rows[..i]) && scopes == Scopes(rows[..i])
    {
      Noted(rows, i);
      if !RowValid(voc, rows[i], today) || rows[i].id in ids || ScopeOf(rows[i]) in scopes {
        return false;
      }
      ids := ids + {rows[i].id};
      scopes := scopes + {ScopeOf(rows[i])};
    }
    assert rows[..|rows|] == rows;
    return true;
  }

  // ---------------------------------------------------------------- base rules

  function Active(rows: seq<Waiver>, today: int): seq<Waiver> {
    if rows == [] then []
    else
      var n := |rows| - 1;
      Active(rows[..n], today) + (if rows[n].expires > today then [rows[n]] else [])
  }

  function Expired(rows: seq<Waiver>, today: int): seq<Waiver> {
    if rows == [] then []
    else
      var n := |rows| - 1;
      Expired(rows[..n], today) + (if rows[n].expires <= today then [rows[n]] else [])
  }

  /** Each row would be valid on the day it was reviewed, and no identity or scope is repeated. */
  predicate WellKept(voc: Vocabulary, rows: seq<Waiver>) {
    && |rows| <= MAX_WAIVERS
    && (forall i | 0 <= i < |rows| :: RowValid(voc, rows[i], rows[i].reviewed))
    && Unrepeated(rows)
  }

  /** What `base_rules` accepts on a day. */
  predicate BaseAccepts(voc: Vocabulary, rows: seq<Waiver>, today: int) {
    WellKept(voc, rows) && PolicyValid(voc, Active(rows, today), today)
  }

  lemma {:induction false} ActiveMembers(rows: seq<Waiver>, today: int, w: Waiver)
    ensures w in Active(rows, today) <==> w in rows && w.expires > today
    ensures w in Expired(rows, today) <==> w in rows && w.expires <= today
  {
    if rows != [] {
      var n := |rows| - 1;
      ActiveMembers(rows[..n], today, w);
      assert rows == rows[..n] + [rows[n]];
    }
  }

  /** Active and expired rows partition the list: every row is counted in exactly one of them. */
  lemma {:induction false} ActiveExpiredPartition(rows: seq<Waiver>, today: int)
    ensures multiset(rows) == multiset(Active(rows, today)) + multiset(Expired(rows, today))
    ensures forall w :: !(w in Active(rows, today) && w in Expired(rows, today))
  {
    if rows != [] {
      var n := |rows| - 1;
      ActiveExpiredPartition(rows[..n], today);
      assert rows == rows[..n] + [rows[n]];
    }
    forall w ensures !(w in Active(rows, today) && w in Expired(rows, today)) {
      ActiveMembers(rows, today, w);
    }
  }

  lemma {:induction false} ActiveUnrepeated(rows: seq<Waiver>, today: int)
    requires Unrepeated(rows)
    ensures Unrepeated(Active(rows, today)) && |Active(rows, today)| <= |rows|
  {
    if rows != [] {
      var before, last := rows[..|rows| - 1], rows[|rows| - 1];
      ActiveUnrepeated(before, today);
      UnrepeatedStep(before, last);
      assert rows == before + [last];
      var kept := Active(before, today);
      if last.expires > today {
        forall i | 0 <= i < |kept| ensures kept[i].id != last.id && ScopeOf(kept[i]) != ScopeOf(last) {
          ActiveMembers(before, today, kept[i]);
          assert kept[i] in before;
        }
        UnrepeatedStep(kept, last);
      }
    }
  }

  /** `base_rules` refuses a well-kept list exactly when some row still in force was reviewed in the future. */
  lemma BaseAcceptsMeaning(voc: Vocabulary, rows: seq<Waiver>, today: int)
    ensures BaseAccepts(voc, rows, today) <==>
            WellKept(voc, rows) && forall w | w in rows && w.expires > today :: w.reviewed <= today
  {
    if WellKept(voc, rows) {
      ActiveUnrepeated(rows, today);
      var active := Active(rows, today);
      if PolicyValid(voc, active, today) {
        forall w | w in rows && w.expires > today ensures w.reviewed <= today {
          ActiveMembers(rows, today, w);
          assert RowValid(voc, w, today);
        }
      }
      if forall w | w in rows && w.expires > today :: w.reviewed <= today {
        forall i | 0 <= i < |active| ensures RowValid(voc, active[i], today) {
          ActiveMembers(rows, today, active[i]);
          assert RowValid(voc, active[i], active[i].reviewed);
        }
      }
    }
  }

  /** A policy accepted on one day is accepted on every later day. */
  lemma AcceptedLater(voc: Vocabulary, rows: seq<Waiver>, day: int, later: int)
    requires BaseAccepts(voc, rows, day) && day <= later
    ensures BaseAccepts(voc, rows, later)
  {
    BaseAcceptsMeaning(voc, rows, day);
    BaseAcceptsMeaning(voc, rows, later);
  }

  /** Active waivers only shrink: the later list is what a later look at the earlier list keeps. */
  lemma {:induction false} ActiveShrinks(rows: seq<Waiver>, day: int, later: int)
    requires day <= later
    ensures Active(Active(rows, day), later) == Active(rows, later)
  {
    if rows != [] {
      var n := |rows| - 1;
      ActiveShrinks(rows[..n], day, later);
      var kept := Active(rows[..n], day);
      if rows[n].expires > day {
        assert (kept + [rows[n]])[..|kept|] == kept;
      } else {
        assert kept + [] == kept;
      }
    }
  }

  lemma PartsStep(rows: seq<Waiver>, today: int, i: nat)
    requires i < |rows|
    ensures Active(rows[..i + 1], today) == Active(rows[..i], today) + (if rows[i].expires > today then [rows[i]] else [])
    ensures Ids(Expired(rows[..i + 1], today)) ==
            Ids(Expired(rows[..i], today)) + (if rows[i].expires <= today then {rows[i].id} else {})
  {
    assert rows[..i + 1][..i] == rows[..i];
    IdsStep(Expired(rows[..i], today), rows[i]);
    assert Expired(rows[..i], today) + [] == Expired(rows[..i], today);
  }

  /** `base_rules(value, today)`: the waivers in force and the sorted identifiers of the expired ones. */
  method BaseRules(voc: Vocabulary, rows: seq<Waiver>, today: int) returns (ok: bool, active: seq<Waiver>, expired: seq<string>)
    ensures ok <==> BaseAccepts(voc, rows, today)
    ensures ok ==> active == Active(rows, today) && expired == Sorted(Ids(Expired(rows, today)))
  {
    active, expired := [], [];
    if |rows| > MAX_WAIVERS {
      return false, [], [];
    }
    var ids: set<string>, scopes: set<(Coordinates, Kind, string)>, ended: set<string> := {}, {}, {};
    for i := 0 to |rows|
      invariant forall k | 0 <= k < i :: RowValid(voc, rows[k], rows[k].reviewed)
      invariant Unrepeated(rows[..i]) && ids == Ids(rows[..i]) && scopes == Scopes(rows[..i])
      invariant active == Active(rows[..i], today) && ended == Ids(Expired(rows[..i], today))
    {
      Noted(rows, i);
      PartsStep(rows, today, i);
      if !RowValid(voc, rows[i], rows[i].reviewed) || rows[i].id in ids || ScopeOf(rows[i]) in scopes {
        return false, [], [];
      }
      ids := ids + {rows[i].id};
      scopes := scopes + {ScopeOf(rows[i])};
      if rows[i].expires <= today {
        ended := ended + {rows[i].id};
      } else {
        active := active + [rows[i]];
      }
    }
    assert rows[..|rows|] == rows;
    expired := Sorted(ended);
    ok := ValidatePolicy(voc, active, today);
  }
}
