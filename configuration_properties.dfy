/** What `ApplyDefaultsTo` promises about the branch dictionary it leaves behind. */
module ConfigurationProperties {
  import opened Wrappers
  import opened Configurations
  import E = ConfigEnums

  type Entries = map<string, BranchConfig>

  /** A branch configuration the user pass rejects. */
  predicate Lacking(b: BranchConfig)
  {
    b.regex.None? || b.sourceBranches.None?
  }

  /** The exception the user pass throws for such a configuration. */
  function MissingError(key: string, b: BranchConfig): Exception
  {
    if b.regex.None? then ConfigurationException(MissingMessage(key, "regex"))
    else ConfigurationException(MissingMessage(key, "source-branches"))
  }

  /** `b` is `a` with names appended to its source branches. */
  predicate SourcesGrown(a: BranchConfig, b: BranchConfig)
  {
    a.sourceBranches.Some? && b.sourceBranches.Some? &&
    a.sourceBranches.value <= b.sourceBranches.value &&
    b == a.(sourceBranches := b.sourceBranches)
  }

  predicate AllFilled(e: Entries)
  {
    forall k :: k in e ==> Filled(e[k])
  }

  lemma KeepsUserValuesTransitive(a: BranchConfig, b: BranchConfig, c: BranchConfig)
    requires KeepsUserValues(a, b) && KeepsUserValues(b, c)
    ensures KeepsUserValues(a, c)
  {
  }

  /** A key the pass over `ks` visits. */
  predicate KnownFrom(x: string, ks: seq<Known>)
  {
    exists j :: 0 <= j < |ks| && ks[j].key == x
  }

  /** The keys of `ks` are those of its prefix and its last entry. */
  lemma KnownFromSnoc(x: string, ks: seq<Known>)
    requires ks != []
    ensures KnownFrom(x, ks) <==> KnownFrom(x, ks[..|ks| - 1]) || x == ks[|ks| - 1].key
  {
    var pre := ks[..|ks| - 1];
    if KnownFrom(x, ks) {
      var j :| 0 <= j < |ks| && ks[j].key == x;
      if j < |pre| {
        assert pre[j].key == x;
      }
    }
    if KnownFrom(x, pre) {
      var j :| 0 <= j < |pre| && pre[j].key == x;
      assert ks[j].key == x;
    }
  }

  /** One known step, seen from one key. */
  lemma KnownStepAt(inc: Option<E.IncrementStrategyType>, mode: Option<E.VersioningMode>, p: Branches, k: Known, x: string)
    ensures var r := KnownStep(inc, mode, p, k).entries;
      (x in r <==> x in p.entries || x == k.key) &&
      (x == k.key ==> Filled(r[x])) &&
      (x in p.entries ==> KeepsUserValues(p.entries[x], r[x]) && (Filled(p.entries[x]) ==> Filled(r[x]))) &&
      (x in p.entries && x != k.key ==> r[x] == p.entries[x])
  {
    var b := if k.key in p.entries then p.entries[k.key] else NewBranchConfig(k.key);
    ApplyBranchDefaultsKeepsAndFills(inc, mode, b, k.regex, k.sources, k.defaults);
  }

  /** After the known pass every known key is filled and keeps what the user gave; other keys are untouched. */
  lemma {:induction false} KnownPassAt(inc: Option<E.IncrementStrategyType>, mode: Option<E.VersioningMode>, s: Branches, ks: seq<Known>, x: string)
    ensures var r := KnownPass(inc, mode, s, ks).entries;
      (x in r <==> x in s.entries || KnownFrom(x, ks)) &&
      (KnownFrom(x, ks) ==> Filled(r[x])) &&
      (x in s.entries ==> KeepsUserValues(s.entries[x], r[x]) && (Filled(s.entries[x]) ==> Filled(r[x]))) &&
      (x in s.entries && !KnownFrom(x, ks) ==> r[x] == s.entries[x])
    decreases |ks|
  {
    if ks != [] {
      var pre, k := ks[..|ks| - 1], ks[|ks| - 1];
      KnownPassAt(inc, mode, s, pre, x);
      var p := KnownPass(inc, mode, s, pre);
      KnownStepAt(inc, mode, p, k, x);
      KnownFromSnoc(x, ks);
      var r := KnownStep(inc, mode, p, k).entries;
      if x in s.entries && x in p.entries && x in r {
        KeepsUserValuesTransitive(s.entries[x], p.entries[x], r[x]);
      }
    }
  }

  /** The table's keys are the known keys. */
  lemma KnownFromStart(x: string)
    ensures KnownFrom(x, KnownBranches) <==> x in KnownKeys
  {
    assert KnownBranches[0].key == DevelopBranchKey && KnownBranches[1].key == DefaultBranchKey;
    assert KnownBranches[2].key == ReleaseBranchKey && KnownBranches[3].key == FeatureBranchKey;
    assert KnownBranches[4].key == PullRequestBranchKey && KnownBranches[5].key == HotfixBranchKey;
    assert KnownBranches[6].key == SupportBranchKey;
    if x in KnownKeys {
      if x == DevelopBranchKey { assert KnownBranches[0].key == x; }
      else if x == DefaultBranchKey { assert KnownBranches[1].key == x; }
      else if x == ReleaseBranchKey { assert KnownBranches[2].key == x; }
      else if x == FeatureBranchKey { assert KnownBranches[3].key == x; }
      else if x == PullRequestBranchKey { assert KnownBranches[4].key == x; }
      else if x == HotfixBranchKey { assert KnownBranches[5].key == x; }
      else { assert KnownBranches[6].key == x; }
    }
  }

  /** The user pass fills and keeps each key it visits and leaves the others alone. */
  lemma {:induction false} UserPassAt(inc: Option<E.IncrementStrategyType>, mode: Option<E.VersioningMode>, e: Entries, keys: seq<string>, x: string)
    requires forall k :: k in keys ==> k in e
    ensures var u := UserPass(inc, mode, e, keys);
      u.Ok? && x in e ==>
        KeepsUserValues(e[x], u.value[x]) &&
        ((x in keys || Filled(e[x])) ==> Filled(u.value[x])) &&
        (x !in keys ==> u.value[x] == e[x])
    decreases |keys|
  {
    if keys != [] && UserStep(inc, mode, e, keys[0]).Ok? {
      var k0 := keys[0];
      var b := e[k0];
      var e' := UserStep(inc, mode, e, k0).value;
      ApplyBranchDefaultsKeepsAndFills(inc, mode, b, b.regex.value, b.sourceBranches.value, NoDefaults);
      UserPassAt(inc, mode, e', keys[1..], x);
      var u := UserPass(inc, mode, e, keys);
      assert x in keys <==> x == k0 || x in keys[1..];
      if u.Ok? && x in e {
        KeepsUserValuesTransitive(e[x], e'[x], u.value[x]);
      }
    }
  }

  /** A successful user step leaves no key lacking that was not lacking before, and the reverse. */
  lemma UserStepLacking(inc: Option<E.IncrementStrategyType>, mode: Option<E.VersioningMode>, e: Entries, k: string, y: string)
    requires k in e && y in e && UserStep(inc, mode, e, k).Ok?
    ensures Lacking(UserStep(inc, mode, e, k).value[y]) <==> Lacking(e[y])
    ensures Lacking(e[y]) ==> UserStep(inc, mode, e, k).value[y] == e[y]
  {
  }

  /** A pass whose first step succeeds is the pass over the rest from that step's result. */
  lemma UserPassUnfold(inc: Option<E.IncrementStrategyType>, mode: Option<E.VersioningMode>, e: Entries, keys: seq<string>)
    requires keys != [] && forall k :: k in keys ==> k in e
    requires UserStep(inc, mode, e, keys[0]).Ok?
    ensures UserPass(inc, mode, e, keys) == UserPass(inc, mode, UserStep(inc, mode, e, keys[0]).value, keys[1..])
  {
  }

  /** The user pass fails exactly when a visited key lacks a regex or source branches. */
  lemma {:induction false} UserPassFails(inc: Option<E.IncrementStrategyType>, mode: Option<E.VersioningMode>, e: Entries, keys: seq<string>)
    requires forall k :: k in keys ==> k in e
    ensures UserPass(inc, mode, e, keys).Err? <==> exists i :: 0 <= i < |keys| && Lacking(e[keys[i]])
    decreases |keys|
  {
    if keys != [] {
      var k0 := keys[0];
      if !Lacking(e[k0]) {
        var e' := UserStep(inc, mode, e, k0).value;
        UserPassFails(inc, mode, e', keys[1..]);
        if exists i :: 0 <= i < |keys| && Lacking(e[keys[i]]) {
          var i :| 0 <= i < |keys| && Lacking(e[keys[i]]);
          UserStepLacking(inc, mode, e, k0, keys[i]);
          assert keys[1..][i - 1] == keys[i];
        }
        if exists i :: 0 <= i < |keys[1..]| && Lacking(e'[keys[1..][i]]) {
          var i :| 0 <= i < |keys[1..]| && Lacking(e'[keys[1..][i]]);
          UserStepLacking(inc, mode, e, k0, keys[i + 1]);
          assert keys[i + 1] == keys[1..][i];
        }
      } else {
        assert Lacking(e[keys[0]]);
      }
    }
  }

  /** A failing user pass reports the first visited key that lacks a setting. */
  lemma {:induction false} UserPassFirstError(inc: Option<E.IncrementStrategyType>, mode: Option<E.VersioningMode>, e: Entries, keys: seq<string>)
    requires forall k :: k in keys ==> k in e
    ensures var u := UserPass(inc, mode, e, keys);
      u.Err? ==> exists i :: 0 <= i < |keys| && Lacking(e[keys[i]]) && u.error == MissingError(keys[i], e[keys[i]]) &&
                   forall j :: 0 <= j < i ==> !Lacking(e[keys[j]])
    decreases |keys|
  {
    if keys != [] {
      var k0 := keys[0];
      if !Lacking(e[k0]) {
        var e' := UserStep(inc, mode, e, k0).value;
        UserPassUnfold(inc, mode, e, keys);
        UserPassFirstError(inc, mode, e', keys[1..]);
        var u := UserPass(inc, mode, e', keys[1..]);
        if u.Err? {
          var i' :| 0 <= i' < |keys[1..]| && Lacking(e'[keys[1..][i']]) && u.error == MissingError(keys[1..][i'], e'[keys[1..][i']]) &&
                    forall j :: 0 <= j < i' ==> !Lacking(e'[keys[1..][j]]);
          var i := i' + 1;
          assert keys[i] == keys[1..][i'];
          UserStepLacking(inc, mode, e, k0, keys[i]);
          forall j | 0 <= j < i
            ensures !Lacking(e[keys[j]])
          {
            if j > 0 {
              assert keys[j] == keys[1..][j - 1];
              UserStepLacking(inc, mode, e, k0, keys[j]);
            }
          }
        }
      }
    }
  }

  lemma SourcesGrownTransitive(a: BranchConfig, b: BranchConfig, c: BranchConfig)
    requires SourcesGrown(a, b) && SourcesGrown(b, c)
    ensures SourcesGrown(a, c)
  {
  }

  /** Adding sources to filled entries only lengthens source lists; it fails only on a missing key. */
  lemma {:induction false} AddSourcesAt(e: Entries, key: string, targets: seq<string>, x: string)
    requires AllFilled(e)
    ensures var a := AddSources(e, key, targets);
      (a.Err? <==> exists t :: t in targets && t !in e) &&
      (a.Err? ==> a.error.KeyNotFoundException?) &&
      (a.Ok? && x in e ==> SourcesGrown(e[x], a.value[x]) && Filled(a.value[x])) &&
      (a.Ok? && x in e && x in targets ==> key in a.value[x].sourceBranches.value)
    decreases |targets|
  {
    if targets != [] {
      var t := targets[0];
      assert forall y :: y in targets <==> y == t || y in targets[1..];
      if t in e {
        var b := e[t];
        var e' := e[t := b.(sourceBranches := Some(b.sourceBranches.value + [key]))];
        assert AllFilled(e');
        AddSourcesAt(e', key, targets[1..], x);
        AddSourcesAt(e', key, targets[1..], t);
        var a := AddSources(e, key, targets);
        assert a == AddSources(e', key, targets[1..]);
        if a.Ok? && x in e {
          SourcesGrownTransitive(e[x], e'[x], a.value[x]);
        }
        if a.Ok? && x == t {
          assert key in e'[t].sourceBranches.value;
        }
      }
    }
  }

  /** The second pass on filled entries: fails only with a missing key, and adds every named source. */
  lemma {:induction false} SourcePassAt(e: Entries, keys: seq<string>, x: string)
    requires AllFilled(e) && forall k :: k in keys ==> k in e
    ensures var p := SourcePass(e, keys);
      (p.Err? ==> p.error.KeyNotFoundException?) &&
      (p.Ok? && x in e ==> SourcesGrown(e[x], p.value[x]) && Filled(p.value[x])) &&
      (p.Ok? && x in e ==>
         forall i :: 0 <= i < |keys| && e[keys[i]].isSourceBranchFor.Some? && x in e[keys[i]].isSourceBranchFor.value ==>
           keys[i] in p.value[x].sourceBranches.value)
    decreases |keys|
  {
    if keys != [] {
      var k0 := keys[0];
      var b := e[k0];
      var step := if b.isSourceBranchFor.None? then Ok(e) else AddSources(e, k0, b.isSourceBranchFor.value);
      if b.isSourceBranchFor.Some? {
        forall y | true
          ensures step.Ok? && y in e ==> SourcesGrown(e[y], step.value[y]) && Filled(step.value[y])
          ensures step.Ok? && y in e && y in b.isSourceBranchFor.value ==> k0 in step.value[y].sourceBranches.value
          ensures step.Err? ==> step.error.KeyNotFoundException?
        {
          AddSourcesAt(e, k0, b.isSourceBranchFor.value, y);
        }
      } else {
        assert forall y :: y in e ==> SourcesGrown(e[y], e[y]);
      }
      if step.Ok? {
        var e' := step.value;
        assert AllFilled(e');
        SourcePassAt(e', keys[1..], x);
        var p := SourcePass(e, keys);
        assert p == SourcePass(e', keys[1..]);
        if p.Ok? && x in e {
          SourcesGrownTransitive(e[x], e'[x], p.value[x]);
          forall i | 0 <= i < |keys| && e[keys[i]].isSourceBranchFor.Some? && x in e[keys[i]].isSourceBranchFor.value
            ensures keys[i] in p.value[x].sourceBranches.value
          {
            if i == 0 {
              assert SourcesGrown(e'[x], p.value[x]);
            } else {
              assert keys[i] == keys[1..][i - 1];
              assert SourcesGrown(e[keys[i]], e'[keys[i]]);
            }
          }
        }
      }
    }
  }

  /**
   * After defaults succeed every branch has all its required settings, every known key
   * is present, and every setting the configuration gave is kept.
   */
  lemma DefaultsFillEveryBranch(inc: Option<E.IncrementStrategyType>, mode: Option<E.VersioningMode>, s: Branches, x: string)
    requires s.Valid()
    ensures var d := DefaultBranches(inc, mode, s);
      d.Ok? ==>
        (x in d.value.entries <==> x in s.entries || x in KnownKeys) &&
        (x in d.value.entries ==> Filled(d.value.entries[x])) &&
        (x in s.entries ==> KeepsUserValues(s.entries[x], d.value.entries[x]))
  {
    var known := KnownPass(inc, mode, s, KnownBranches);
    KnownPassKeys(inc, mode, s, KnownBranches);
    assert forall k :: k in s.order ==> k in known.entries;
    var u := UserPass(inc, mode, known.entries, s.order);
    var d := DefaultBranches(inc, mode, s);
    if d.Ok? {
      forall y | true
        ensures y in u.value <==> y in s.entries || y in KnownKeys
        ensures y in u.value ==> Filled(u.value[y])
        ensures y in s.entries ==> KeepsUserValues(s.entries[y], u.value[y])
      {
        KnownPassAt(inc, mode, s, KnownBranches, y);
        KnownFromStart(y);
        UserPassAt(inc, mode, known.entries, s.order, y);
        if y in s.entries {
          KeepsUserValuesTransitive(s.entries[y], known.entries[y], u.value[y]);
        }
      }
      assert AllFilled(u.value);
      assert forall k :: k in s.order ==> k in u.value;
      var p := SourcePass(u.value, s.order);
      assert d.value.entries == p.value;
      SourcePassAt(u.value, s.order, x);
      if x in s.entries {
        KeepsUserValuesTransitive(s.entries[x], u.value[x], p.value[x]);
      }
    }
  }

  /** A key the configuration did not declare gets exactly the table's defaults on a fresh configuration. */
  lemma {:induction false} KnownPassFresh(inc: Option<E.IncrementStrategyType>, mode: Option<E.VersioningMode>, s: Branches, ks: seq<Known>, i: nat)
    requires i < |ks| && ks[i].key !in s.entries
    requires forall a, b :: 0 <= a < b < |ks| ==> ks[a].key != ks[b].key
    ensures var r := KnownPass(inc, mode, s, ks).entries;
      ks[i].key in r && r[ks[i].key] == ApplyBranchDefaults(inc, mode, NewBranchConfig(ks[i].key), ks[i].regex, ks[i].sources, ks[i].defaults)
    decreases |ks|
  {
    var pre, k := ks[..|ks| - 1], ks[|ks| - 1];
    var x := ks[i].key;
    var p := KnownPass(inc, mode, s, pre);
    if i == |ks| - 1 {
      KnownPassAt(inc, mode, s, pre, x);
    } else {
      assert pre[i] == ks[i];
      KnownPassFresh(inc, mode, s, pre, i);
      KnownStepAt(inc, mode, p, k, x);
    }
  }

  /** The seven keys of the table are distinct. */
  lemma KnownKeysDistinct()
    ensures forall a, b :: 0 <= a < b < |KnownBranches| ==> KnownBranches[a].key != KnownBranches[b].key
  {
  }

  /** The defaults a known key receives when the configuration did not declare it. */
  function FreshDefaults(inc: Option<E.IncrementStrategyType>, mode: Option<E.VersioningMode>, k: Known): BranchConfig
  {
    ApplyBranchDefaults(inc, mode, NewBranchConfig(k.key), k.regex, k.sources, k.defaults)
  }

  /** On an empty dictionary the known pass yields exactly the seven keys, each with its table defaults. */
  lemma EmptyKnownPass(inc: Option<E.IncrementStrategyType>, mode: Option<E.VersioningMode>)
    ensures var known := KnownPass(inc, mode, Branches(map[], []), KnownBranches);
      known.entries.Keys == KnownKeys &&
      forall i :: 0 <= i < |KnownBranches| ==> known.entries[KnownBranches[i].key] == FreshDefaults(inc, mode, KnownBranches[i])
  {
    var s := Branches(map[], []);
    var known := KnownPass(inc, mode, s, KnownBranches);
    KnownKeysDistinct();
    forall i | 0 <= i < |KnownBranches|
      ensures KnownBranches[i].key in known.entries && known.entries[KnownBranches[i].key] == FreshDefaults(inc, mode, KnownBranches[i])
    {
      KnownPassFresh(inc, mode, s, KnownBranches, i);
    }
    forall y | true
      ensures y in known.entries <==> y in KnownKeys
    {
      KnownPassAt(inc, mode, s, KnownBranches, y);
      KnownFromStart(y);
    }
  }

  /** One entry of the table, on an empty dictionary. */
  lemma EmptyKnownPassAt(inc: Option<E.IncrementStrategyType>, mode: Option<E.VersioningMode>, i: nat)
    requires i < |KnownBranches|
    ensures var known := KnownPass(inc, mode, Branches(map[], []), KnownBranches);
      KnownBranches[i].key in known.entries && known.entries[KnownBranches[i].key] == FreshDefaults(inc, mode, KnownBranches[i])
  {
    KnownKeysDistinct();
    KnownPassFresh(inc, mode, Branches(map[], []), KnownBranches, i);
  }

  /** With no user-declared branch the user passes change nothing. */
  lemma EmptyUserPasses(inc: Option<E.IncrementStrategyType>, mode: Option<E.VersioningMode>)
    ensures DefaultBranches(inc, mode, Branches(map[], [])) == Ok(KnownPass(inc, mode, Branches(map[], []), KnownBranches))
  {
    var s := Branches(map[], []);
    var known := KnownPass(inc, mode, s, KnownBranches);
    KnownPassKeys(inc, mode, s, KnownBranches);
    assert UserPass(inc, mode, known.entries, s.order) == Ok(known.entries);
    assert SourcePass(known.entries, s.order) == Ok(known.entries);
    assert UserPasses(inc, mode, s, known) == Ok(Branches(known.entries, known.order));
  }

  /** The table defaults, read setting by setting. */
  lemma TableDefaults(inc: Option<E.IncrementStrategyType>, mode: Option<E.VersioningMode>)
    ensures FreshDefaults(inc, mode, Develop).increment == Some(E.Minor)
    ensures FreshDefaults(inc, mode, Develop).tag == Some("alpha")
    ensures FreshDefaults(inc, mode, Develop).versioningMode == Some(E.ContinuousDeployment)
    ensures FreshDefaults(inc, mode, Default).increment == Some(E.Patch)
    ensures FreshDefaults(inc, mode, Default).tag == Some("")
    ensures FreshDefaults(inc, mode, Default).isMainline == Some(true)
    ensures FreshDefaults(inc, mode, Release).increment == Some(E.Patch)
    ensures FreshDefaults(inc, mode, Release).tag == Some("beta")
    ensures FreshDefaults(inc, mode, Release).isReleaseBranch == Some(true)
    ensures FreshDefaults(inc, mode, Feature).increment == Some(E.Inherit)
    ensures FreshDefaults(inc, mode, PullRequest).increment == Some(E.Inherit)
    ensures FreshDefaults(inc, mode, PullRequest).tag == Some("PullRequest")
  {
  }

  /**
   * A configuration that declares no branch gets the table's defaults for the seven known
   * keys: develop bumps the minor number with tag "alpha" in continuous-deployment mode,
   * default is the mainline patch-bumping branch with no tag, release bumps the patch
   * with tag "beta", and feature and pull-request branches inherit their increment.
   */
  lemma EmptyConfigurationDefaults(inc: Option<E.IncrementStrategyType>, mode: Option<E.VersioningMode>)
    ensures var d := DefaultBranches(inc, mode, Branches(map[], []));
      d.Ok? &&
      DevelopBranchKey in d.value.entries && d.value.entries[DevelopBranchKey] == FreshDefaults(inc, mode, Develop) &&
      DefaultBranchKey in d.value.entries && d.value.entries[DefaultBranchKey] == FreshDefaults(inc, mode, Default) &&
      ReleaseBranchKey in d.value.entries && d.value.entries[ReleaseBranchKey] == FreshDefaults(inc, mode, Release) &&
      FeatureBranchKey in d.value.entries && d.value.entries[FeatureBranchKey] == FreshDefaults(inc, mode, Feature) &&
      PullRequestBranchKey in d.value.entries && d.value.entries[PullRequestBranchKey] == FreshDefaults(inc, mode, PullRequest)
  {
    EmptyUserPasses(inc, mode);
    EmptyKnownPassAt(inc, mode, 0);
    EmptyKnownPassAt(inc, mode, 1);
    EmptyKnownPassAt(inc, mode, 2);
    EmptyKnownPassAt(inc, mode, 3);
    EmptyKnownPassAt(inc, mode, 4);
  }
}
