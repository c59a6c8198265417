/**
 * `group_issues` in `single_url_main.py`: the issue dictionaries a check
 * returns are grouped by their "Issue" field, and each group is reported
 * once, as its first dictionary with a "Count" field added.
 */
module Grouping {
  import opened Wrappers

  /**
   * A value of an issue dictionary. Python's ints, floats and booleans
   * compare and hash as numbers, so they share `Num`; lists (`Items`) are
   * not hashable.
   */
  datatype Value = Str(text: string) | Num(number: real) | Items(items: seq<Value>) | Null

  /** One issue dictionary. */
  type Record = map<string, Value>

  const IssueField := "Issue"
  const CountField := "Count"
  const DefaultIssue := "No issue description provided."

  /** `detail.get("Issue", "No issue description provided.")` */
  function Key(d: Record): Value
  {
    if IssueField in d then d[IssueField] else Str(DefaultIssue)
  }

  /** Whether Python can use `v` as a dictionary key. */
  predicate Hashable(v: Value)
  {
    !v.Items?
  }

  /** The distinct keys of `details`, in order of first occurrence: the keys of the `defaultdict`. */
  function Keys(details: seq<Record>): (r: seq<Value>)
    ensures |r| <= |details|
  {
    if details == [] then []
    else
      var ks := Keys(details[..|details| - 1]);
      var k := Key(details[|details| - 1]);
      if k in ks then ks else ks + [k]
  }

  /** The dictionaries of `details` whose key is `k`, in order: `grouped[k]`. */
  function Occurrences(details: seq<Record>, k: Value): (r: seq<Record>)
    ensures |r| <= |details|
    ensures forall j | 0 <= j < |r| :: Key(r[j]) == k && r[j] in details
  {
    if details == [] then []
    else
      var d := details[|details| - 1];
      Occurrences(details[..|details| - 1], k) + (if Key(d) == k then [d] else [])
  }

  /** One output dictionary: `{**occurrences[0], "Count": len(occurrences)}`. */
  function Counted(occurrences: seq<Record>): Record
    requires occurrences != []
  {
    occurrences[0][CountField := Num(|occurrences| as real)]
  }

  /** The result of `group_issues`; a TypeError when some key is not hashable. */
  function GroupIssues(details: seq<Record>): Result<seq<Record>, Exception>
  {
    if exists i | 0 <= i < |details| :: !Hashable(Key(details[i])) then Failure(TypeError)
    else
      var ks := Keys(details);
      KeysNonEmpty(details);
      Success(seq(|ks|, j requires 0 <= j < |ks| => Counted(Occurrences(details, ks[j]))))
  }

  /** A key has occurrences exactly when it is one of the keys. */
  lemma {:induction false} KeysOccur(details: seq<Record>, k: Value)
    ensures k in Keys(details) <==> Occurrences(details, k) != []
  {
    if details != [] {
      KeysOccur(details[..|details| - 1], k);
    }
  }

  /** A key has occurrences exactly when some dictionary carries it. */
  lemma {:induction false} OccursSomewhere(details: seq<Record>, k: Value)
    ensures Occurrences(details, k) != [] <==> exists i | 0 <= i < |details| :: Key(details[i]) == k
  {
    if details != [] {
      var p := details[..|details| - 1];
      OccursSomewhere(p, k);
      if exists i | 0 <= i < |p| :: Key(p[i]) == k {
        var i :| 0 <= i < |p| && Key(p[i]) == k;
        assert details[i] == p[i];
      }
      if exists i | 0 <= i < |details| :: Key(details[i]) == k {
        var i :| 0 <= i < |details| && Key(details[i]) == k;
        if i < |p| {
          assert p[i] == details[i];
        }
      }
    }
  }

  /** A key is one of the keys exactly when it has occurrences, and exactly when some dictionary carries it. */
  lemma KeysIff(details: seq<Record>, k: Value)
    ensures k in Keys(details) <==> Occurrences(details, k) != []
    ensures k in Keys(details) <==> exists i | 0 <= i < |details| :: Key(details[i]) == k
  {
    KeysOccur(details, k);
    OccursSomewhere(details, k);
  }

  /** Every key has at least one occurrence. */
  lemma KeysNonEmpty(details: seq<Record>)
    ensures forall j | 0 <= j < |Keys(details)| :: Occurrences(details, Keys(details)[j]) != []
  {
    forall j | 0 <= j < |Keys(details)| ensures Occurrences(details, Keys(details)[j]) != [] {
      KeysIff(details, Keys(details)[j]);
    }
  }

  /** The keys are pairwise distinct: one output dictionary per distinct "Issue" value. */
  lemma {:induction false} KeysDistinct(details: seq<Record>)
    ensures forall i, j | 0 <= i < j < |Keys(details)| :: Keys(details)[i] != Keys(details)[j]
  {
    if details != [] {
      var p := details[..|details| - 1];
      KeysDistinct(p);
      var ks := Keys(p);
      var k := Key(details[|details| - 1]);
      if k !in ks {
        forall i, j | 0 <= i < j < |ks + [k]| ensures (ks + [k])[i] != (ks + [k])[j] {
          assert (ks + [k])[i] == ks[i] && ks[i] in ks;
          if j < |ks| {
            assert (ks + [k])[j] == ks[j];
            assert ks[i] != ks[j];
          } else {
            assert (ks + [k])[j] == k;
          }
        }
      }
    }
  }

  /**
   * The keys of a prefix of `details` are a prefix of its keys: a key comes
   * before another exactly when it occurs first earlier.
   */
  lemma {:induction false} KeysPrefix(details: seq<Record>, n: nat)
    requires n <= |details|
    ensures Keys(details[..n]) <= Keys(details)
    decreases |details|
  {
    if n < |details| {
      var p := details[..|details| - 1];
      assert details[..n] == p[..n];
      KeysPrefix(p, n);
    } else {
      assert details[..n] == details;
    }
  }

  /** The first occurrence of a key is the first dictionary of `details` with that key. */
  lemma {:induction false} OccurrencesHead(details: seq<Record>, k: Value, i: nat)
    requires i < |details| && Key(details[i]) == k
    requires forall i' | 0 <= i' < i :: Key(details[i']) != k
    ensures Occurrences(details, k) != [] && Occurrences(details, k)[0] == details[i]
  {
    var p := details[..|details| - 1];
    if i < |p| {
      assert p[i] == details[i];
      OccurrencesHead(p, k, i);
    } else {
      forall i' | 0 <= i' < |p| ensures Key(p[i']) != k {
        assert p[i'] == details[i'];
      }
      KeysIff(p, k);
    }
  }

  /** The number of occurrences of each of `ks`, added up. */
  function CountSum(details: seq<Record>, ks: seq<Value>): nat
  {
    if ks == [] then 0 else CountSum(details, ks[..|ks| - 1]) + |Occurrences(details, ks[|ks| - 1])|
  }

  /** Appending a dictionary whose key is not among `ks` leaves their counts unchanged. */
  lemma {:induction false} CountSumOther(details: seq<Record>, d: Record, ks: seq<Value>)
    requires Key(d) !in ks
    ensures CountSum(details + [d], ks) == CountSum(details, ks)
  {
    assert (details + [d])[..|details|] == details;
    if ks != [] {
      CountSumOther(details, d, ks[..|ks| - 1]);
    }
  }

  /** Appending a dictionary whose key is one of the distinct `ks` adds one to their counts. */
  lemma {:induction false} CountSumSame(details: seq<Record>, d: Record, ks: seq<Value>)
    requires Key(d) in ks
    requires forall i, j | 0 <= i < j < |ks| :: ks[i] != ks[j]
    ensures CountSum(details + [d], ks) == CountSum(details, ks) + 1
  {
    assert (details + [d])[..|details|] == details;
    var init := ks[..|ks| - 1];
    if Key(d) == ks[|ks| - 1] {
      assert Key(d) !in init;
      CountSumOther(details, d, init);
    } else {
      assert Key(d) in init;
      CountSumSame(details, d, init);
    }
  }

  /** The counts add up to the number of dictionaries. */
  lemma {:induction false} CountsTotal(details: seq<Record>)
    ensures CountSum(details, Keys(details)) == |details|
  {
    if details != [] {
      var p := details[..|details| - 1];
      var d := details[|details| - 1];
      assert details == p + [d];
      CountsTotal(p);
      KeysDistinct(p);
      if Key(d) in Keys(p) {
        CountSumSame(p, d, Keys(p));
      } else {
        CountSumOther(p, d, Keys(p));
        KeysIff(p, Key(d));
        assert Keys(details)[..|Keys(details)| - 1] == Keys(p);
      }
    }
  }

  /** `group_issues` of an empty list is an empty list. */
  lemma GroupEmpty()
    ensures GroupIssues([]) == Success([])
  {
    var r := GroupIssues([]);
    assert r.Success? && |r.value| == 0;
  }

  /**
   * A TypeError exactly when some key is unhashable; otherwise one output
   * dictionary per distinct key, in order of first occurrence, each the
   * first dictionary with that key plus a "Count" of at least 1 that counts
   * the dictionaries with that key, all the other fields of that first
   * dictionary kept.
   */
  lemma GroupShape(details: seq<Record>)
    ensures GroupIssues(details).Failure? <==> exists i | 0 <= i < |details| :: !Hashable(Key(details[i]))
    ensures GroupIssues(details).Failure? ==> GroupIssues(details).error == TypeError
    ensures GroupIssues(details).Success? ==>
      var r := GroupIssues(details).value;
      var ks := Keys(details);
      && |r| == |ks|
      && (forall j | 0 <= j < |r| :: CountField in r[j] && r[j][CountField] == Num(|Occurrences(details, ks[j])| as real))
      && (forall j | 0 <= j < |r| :: 1 <= |Occurrences(details, ks[j])|)
      && (forall j | 0 <= j < |r| :: Key(Occurrences(details, ks[j])[0]) == ks[j])
      && (forall j, f | 0 <= j < |r| && f != CountField && f in Occurrences(details, ks[j])[0] ::
            f in r[j] && r[j][f] == Occurrences(details, ks[j])[0][f])
  {
    KeysNonEmpty(details);
  }

  /**
   * Every dictionary's key is one of the keys, which are distinct, and the
   * counts add up to the number of dictionaries.
   */
  lemma GroupCounts(details: seq<Record>)
    ensures forall i | 0 <= i < |details| :: Key(details[i]) in Keys(details)
    ensures var ks := Keys(details); forall i, j | 0 <= i < j < |ks| :: ks[i] != ks[j]
    ensures CountSum(details, Keys(details)) == |details|
  {
    forall i | 0 <= i < |details| ensures Key(details[i]) in Keys(details) {
      KeysIff(details, Key(details[i]));
    }
    KeysDistinct(details);
    CountsTotal(details);
  }

  /** One step of the loop: the keys and the occurrences of a longer prefix. */
  lemma PrefixStep(details: seq<Record>, i: nat, k: Value)
    requires i < |details|
    ensures Keys(details[..i + 1]) == if Key(details[i]) in Keys(details[..i]) then Keys(details[..i]) else Keys(details[..i]) + [Key(details[i])]
    ensures Occurrences(details[..i + 1], k) == Occurrences(details[..i], k) + (if Key(details[i]) == k then [details[i]] else [])
    ensures k !in Keys(details[..i]) ==> Occurrences(details[..i], k) == []
  {
    assert details[..i + 1][..i] == details[..i];
    KeysIff(details[..i], k);
  }

  /**
   * The loop's state after the first `n` dictionaries: `order` holds their
   * distinct keys in order of first occurrence, and `grouped` maps exactly
   * those keys to their dictionaries.
   */
  predicate Grouped(details: seq<Record>, n: nat, order: seq<Value>, grouped: map<Value, seq<Record>>)
  {
    && n <= |details|
    && order == Keys(details[..n])
    && (forall k | k in order :: k in grouped && grouped[k] == Occurrences(details[..n], k))
    && (forall k | k in grouped :: k in order)
  }

  /** Before the loop nothing is grouped. */
  lemma GroupedStart(details: seq<Record>)
    ensures Grouped(details, 0, [], map[])
  {
    assert details[..0] == [];
  }

  /** One pass of the loop body keeps the state in step with one more dictionary. */
  lemma GroupedStep(details: seq<Record>, i: nat, order: seq<Value>, grouped: map<Value, seq<Record>>)
    requires i < |details| && Grouped(details, i, order, grouped)
    ensures Key(details[i]) in grouped ==>
      Grouped(details, i + 1, order, grouped[Key(details[i]) := grouped[Key(details[i])] + [details[i]]])
    ensures Key(details[i]) !in grouped ==>
      Grouped(details, i + 1, order + [Key(details[i])], grouped[Key(details[i]) := [details[i]]])
  {
    var k := Key(details[i]);
    PrefixStep(details, i, k);
    var order', grouped' :=
      if k in grouped then order else order + [k],
      if k in grouped then grouped[k := grouped[k] + [details[i]]] else grouped[k := [details[i]]];
    forall k' | k' in order' ensures k' in grouped' && grouped'[k'] == Occurrences(details[..i + 1], k') {
      PrefixStep(details, i, k');
    }
  }

  /** The comprehension over the groups' values, in insertion order: each first dictionary with its "Count". */
  function Groups(order: seq<Value>, grouped: map<Value, seq<Record>>): seq<Record>
    requires forall j | 0 <= j < |order| :: order[j] in grouped && grouped[order[j]] != []
  {
    seq(|order|, j requires 0 <= j < |order| => Counted(grouped[order[j]]))
  }

  /** A dictionary with an unhashable key makes `group_issues` raise a TypeError. */
  lemma UnhashableFails(details: seq<Record>, i: nat)
    requires i < |details| && !Hashable(Key(details[i]))
    ensures GroupIssues(details) == Failure(TypeError)
  {
  }

  /** Once every dictionary is grouped, the comprehension over the groups is `group_issues`'s result. */
  lemma GroupedResult(details: seq<Record>, order: seq<Value>, grouped: map<Value, seq<Record>>)
    requires Grouped(details, |details|, order, grouped)
    requires forall j | 0 <= j < |details| :: Hashable(Key(details[j]))
    ensures forall j | 0 <= j < |order| :: order[j] in grouped && grouped[order[j]] != []
    ensures GroupIssues(details) == Success(Groups(order, grouped))
  {
    assert details[..|details|] == details;
    KeysNonEmpty(details);
    var ks := Keys(details);
    assert order == ks;
    assert !exists i | 0 <= i < |details| :: !Hashable(Key(details[i]));
    var theirs := seq(|ks|, j requires 0 <= j < |ks| => Counted(Occurrences(details, ks[j])));
    assert GroupIssues(details) == Success(theirs);
    forall j | 0 <= j < |order| ensures order[j] in grouped && grouped[order[j]] != [] {
      assert order[j] in order;
    }
    var mine := Groups(order, grouped);
    assert forall j | 0 <= j < |mine| :: mine[j] == theirs[j];
    assert mine == theirs;
  }

  /**
   * `group_issues`: a loop filling a `defaultdict` of lists (`order` keeps
   * its insertion order), then a comprehension over its values.
   */
  method GroupIssuesLoop(details: seq<Record>) returns (r: Result<seq<Record>, Exception>)
    ensures r == GroupIssues(details)
  {
    if details == [] {
      GroupEmpty();
      return Success([]);
    }
    var order: seq<Value> := [];
    var grouped: map<Value, seq<Record>> := map[];
    GroupedStart(details);
    for i := 0 to |details|
      invariant Grouped(details, i, order, grouped)
      invariant forall j | 0 <= j < i :: Hashable(Key(details[j]))
    {
      var issueKey := Key(details[i]);
      if !Hashable(issueKey) {
        UnhashableFails(details, i);
        return Failure(TypeError);
      }
      GroupedStep(details, i, order, grouped);
      if issueKey in grouped {
        grouped := grouped[issueKey := grouped[issueKey] + [details[i]]];
      } else {
        grouped := grouped[issueKey := [details[i]]];
        order := order + [issueKey];
      }
    }
    GroupedResult(details, order, grouped);
    r := Success(Groups(order, grouped));
  }
}
