// The topic matcher `isTopicMatched` of ev-sdk/libs/PahoMqtt/MQTTClient.c, against
// the level-by-level definition of section 4.7 of MQTT 3.1.1.
module TopicMatcher {

  type Level = seq<char>

  // ----- levels --------------------------------------------------------------------------

  /** The levels of a topic: the text split at every '/'. */
  function Levels(s: string): (ls: seq<Level>)
    ensures |ls| >= 1
  {
    if s == [] then [[]]
    else
      var ls := Levels(s[1..]);
      if s[0] == '/' then [[]] + ls else [[s[0]] + ls[0]] + ls[1..]
  }

  predicate IsWildcard(c: char) {
    c == '+' || c == '#'
  }

  /** A wildcard fills a whole level and '#' comes last.  `start` says that the text begins at a level start. */
  predicate ValidFilter(f: string, start: bool) {
    if f == [] then true
    else if f[0] == '#' then start && |f| == 1
    else if f[0] == '+' then start && (|f| == 1 || f[1] == '/') && ValidFilter(f[1..], false)
    else ValidFilter(f[1..], f[0] == '/')
  }

  /** Level-by-level matching as the source does it: '+' stands for one level and '#' for one or more, and in
      both cases the (first) level must not be empty. */
  predicate MatchLevels(fs: seq<Level>, ns: seq<Level>) {
    if fs == [] || ns == [] then fs == [] && ns == []
    else if fs[0] == "#" then ns[0] != []
    else (if fs[0] == "+" then ns[0] != [] else fs[0] == ns[0]) && MatchLevels(fs[1..], ns[1..])
  }

  /** Section 4.7.1 of MQTT 3.1.1: '+' matches any one level, "p/#" matches `p` and everything below it. */
  predicate MatchStandard(fs: seq<Level>, ns: seq<Level>) {
    if fs == ["#"] then true
    else if fs == [] || ns == [] then fs == [] && ns == []
    else (fs[0] == "+" || fs[0] == ns[0]) && MatchStandard(fs[1..], ns[1..])
  }

  // ----- the loop of the source --------------------------------------------------------------

  /** The name after its current level. */
  function DropLevel(n: string): string {
    if n == [] || n[0] == '/' then n else DropLevel(n[1..])
  }

  /** What the loop decides for the rest of the filter and the rest of the name. */
  function Scan(f: string, n: string): bool
    decreases |f|
  {
    if f == [] || n == [] then f == [] && n == []
    else if n[0] == '/' && f[0] != '/' then false
    else if !IsWildcard(f[0]) && f[0] != n[0] then false
    else if f[0] == '+' then Scan(f[1..], DropLevel(n))
    else if f[0] == '#' then Scan(f[1..], [])
    else Scan(f[1..], n[1..])
  }

  lemma LevelsHead(s: string)
    requires s != [] && s[0] != '/'
    ensures Levels(s)[0] == [s[0]] + Levels(s[1..])[0]
    ensures Levels(s)[0][0] == s[0] && Levels(s)[0][1..] == Levels(s[1..])[0]
    ensures Levels(s)[1..] == Levels(s[1..])[1..]
  {
  }

  lemma LevelsSlash(s: string)
    requires s != [] && s[0] == '/'
    ensures Levels(s)[0] == [] && Levels(s)[1..] == Levels(s[1..])
  {
  }

  lemma {:induction false} LevelsDrop(n: string)
    ensures |DropLevel(n)| <= |n|
    ensures DropLevel(n) == [] ==> |Levels(n)| == 1
    ensures DropLevel(n) != [] ==> DropLevel(n)[0] == '/' && Levels(n)[1..] == Levels(DropLevel(n)[1..])
  {
    if n != [] {
      if n[0] == '/' {
        LevelsSlash(n);
      } else {
        LevelsHead(n);
        LevelsDrop(n[1..]);
      }
    }
  }

  /** Inside a level of a valid filter there is no wildcard. */
  lemma NoWildcardInside(f: string)
    requires ValidFilter(f, false)
    ensures Levels(f)[0] != "+" && Levels(f)[0] != "#"
  {
    if f != [] {
      if f[0] == '/' { LevelsSlash(f); } else { LevelsHead(f); }
    }
  }

  lemma MatchStep(fs: seq<Level>, ns: seq<Level>)
    requires fs != [] && ns != []
    ensures fs[0] == "#" ==> (MatchLevels(fs, ns) <==> ns[0] != [])
    ensures fs[0] == "+" ==> (MatchLevels(fs, ns) <==> ns[0] != [] && MatchLevels(fs[1..], ns[1..]))
    ensures fs[0] != "+" && fs[0] != "#" ==> (MatchLevels(fs, ns) <==> fs[0] == ns[0] && MatchLevels(fs[1..], ns[1..]))
  {
  }

  /** The level of a wildcard consists of it alone. */
  lemma WildcardLevel(f: string, start: bool)
    requires ValidFilter(f, start) && f != [] && IsWildcard(f[0])
    ensures Levels(f)[0] == [f[0]] && (|f| == 1 ==> Levels(f)[1..] == [])
    ensures |f| > 1 ==> f[0] == '+' && f[1] == '/' && Levels(f)[1..] == Levels(f[2..]) && ValidFilter(f[2..], true)
  {
    LevelsHead(f);
    if |f| > 1 {
      LevelsSlash(f[1..]);
      assert f[1..][1..] == f[2..];
    }
  }

  /** The scan at the end of the filter or of the name. */
  lemma ScanEnd(f: string, n: string, start: bool)
    requires ValidFilter(f, start) && (f == [] || n == [])
    ensures Scan(f, n) == MatchLevels(Levels(f), Levels(n))
  {
    MatchStep(Levels(f), Levels(n));
    if f == [] {
      if n != [] {
        if n[0] == '/' { LevelsSlash(n); } else { LevelsHead(n); }
      }
    } else if f[0] == '/' {
      LevelsSlash(f);
    } else {
      LevelsHead(f);
      if IsWildcard(f[0]) { WildcardLevel(f, start); }
    }
  }

  lemma ScanSlash(f: string, n: string)
    requires f != [] && n != [] && f[0] == n[0] == '/'
    ensures Scan(f, n) == Scan(f[1..], n[1..])
  {
  }

  lemma PlusAtEnd(f: string, n: string)
    requires ValidFilter(f, true) && f != [] && f[0] == '+' && n != [] && n[0] != '/'
    requires |f| == 1 || DropLevel(n) == []
    ensures Scan(f, n) == MatchLevels(Levels(f), Levels(n))
  {
    LevelsHead(n);
    WildcardLevel(f, true);
    LevelsDrop(n);
    MatchStep(Levels(f), Levels(n));
  }

  /** The character scan is level-by-level matching, for every name; `start` as in ValidFilter. */
  lemma {:induction false} ScanIsMatch(f: string, n: string, start: bool)
    requires ValidFilter(f, start)
    ensures Scan(f, n) == MatchLevels(Levels(f), Levels(n))
    decreases |f|
  {
    hide Levels, MatchLevels;
    var fs, ns := Levels(f), Levels(n);
    MatchStep(fs, ns);
    if f == [] || n == [] {
      ScanEnd(f, n, start);
    } else if f[0] == '/' {
      LevelsSlash(f);
      if n[0] == '/' {
        LevelsSlash(n);
        ScanIsMatch(f[1..], n[1..], true);
      } else {
        LevelsHead(n);
      }
    } else if n[0] == '/' {
      LevelsHead(f);
      LevelsSlash(n);
    } else if IsWildcard(f[0]) {
      LevelsHead(n);
      WildcardLevel(f, start);
      if f[0] == '+' {
        LevelsDrop(n);
        var d := DropLevel(n);
        if |f| > 1 && d != [] {
          ScanIsMatch(f[2..], d[1..], true);
          ScanSlash(f[1..], d);
          assert f[1..][1..] == f[2..];
        } else {
          PlusAtEnd(f, n);
        }
      }
    } else {
      LevelsHead(f);
      LevelsHead(n);
      if f[0] == n[0] {
        NoWildcardInside(f[1..]);
        MatchStep(Levels(f[1..]), Levels(n[1..]));
        ScanIsMatch(f[1..], n[1..], false);
        assert fs[0] == ns[0] <==> Levels(f[1..])[0] == Levels(n[1..])[0];
      }
    }
  }

  /** `isTopicMatched`: both cursors advance, '+' skips a level and '#' the rest. */
  method IsTopicMatched(filter: string, name: string) returns (matched: bool)
    ensures matched == Scan(filter, name)
    ensures ValidFilter(filter, true) ==> matched == MatchLevels(Levels(filter), Levels(name))
  {
    if ValidFilter(filter, true) { ScanIsMatch(filter, name, true); }
    hide Levels, MatchLevels, ValidFilter;
    var curf, curn := 0, 0;
    while curf < |filter| && curn < |name|
      invariant 0 <= curf <= |filter| && 0 <= curn <= |name|
      invariant Scan(filter, name) == Scan(filter[curf..], name[curn..])
      decreases |filter| - curf
    {
      ghost var n := name[curn..];
      assert filter[curf..][1..] == filter[curf + 1..];
      if name[curn] == '/' && filter[curf] != '/' {
        break;
      }
      if filter[curf] != '+' && filter[curf] != '#' && filter[curf] != name[curn] {
        break;
      }
      if filter[curf] == '+' {
        var nextpos := curn + 1;
        while nextpos < |name| && name[nextpos] != '/'
          invariant nextpos == curn + 1 <= |name| && name[curn] != '/'
          invariant DropLevel(n) == DropLevel(name[curn..])
          decreases |name| - nextpos
        {
          assert name[curn..][1..] == name[curn + 1..];
          curn := curn + 1;
          nextpos := curn + 1;
        }
        assert name[curn..][1..] == name[curn + 1..];
      } else if filter[curf] == '#' {
        curn := |name| - 1;
      }
      assert filter[curf] != '+' ==> name[curn..][1..] == name[curn + 1..];
      curf := curf + 1;
      curn := curn + 1;
    }
    matched := curn == |name| && curf == |filter|;
  }

  // ----- the standard --------------------------------------------------------------------------

  /** '#' only as the last level. */
  ghost predicate HashLast(fs: seq<Level>) {
    forall i :: 0 <= i < |fs| - 1 ==> fs[i] != "#"
  }

  lemma {:induction false} ValidHashLast(f: string, start: bool)
    requires ValidFilter(f, start)
    ensures HashLast(Levels(f))
    decreases |f|
  {
    if f != [] {
      if f[0] == '/' {
        LevelsSlash(f);
        ValidHashLast(f[1..], true);
        assert forall i :: 1 <= i < |Levels(f)| ==> Levels(f)[i] == Levels(f)[1..][i - 1];
      } else if IsWildcard(f[0]) {
        WildcardLevel(f, start);
        if |f| > 1 { ValidHashLast(f[2..], true); }
        assert forall i :: 1 <= i < |Levels(f)| ==> Levels(f)[i] == Levels(f)[1..][i - 1];
      } else {
        LevelsHead(f);
        ValidHashLast(f[1..], false);
        assert forall i :: 1 <= i < |Levels(f)| ==> Levels(f)[i] == Levels(f)[1..][i - 1] == Levels(f[1..])[i];
      }
    }
  }

  /** Every wildcard of the filter stands for at least one level, and that level is not empty. */
  ghost predicate WildcardsFilled(fs: seq<Level>, ns: seq<Level>) {
    forall i :: 0 <= i < |fs| && (fs[i] == "+" || fs[i] == "#") ==> i < |ns| && ns[i] != []
  }

  lemma FilledStep(fs: seq<Level>, ns: seq<Level>)
    requires fs != [] && ns != []
    ensures WildcardsFilled(fs, ns) <==>
      (fs[0] == "+" || fs[0] == "#" ==> ns[0] != []) && WildcardsFilled(fs[1..], ns[1..])
  {
    assert forall i :: 1 <= i < |fs| ==> fs[i] == fs[1..][i - 1];
    assert forall i :: 1 <= i < |ns| ==> ns[i] == ns[1..][i - 1];
  }

  /** The source matches what section 4.7.1 matches, except where a wildcard stands for nothing or for an empty
      level. */
  lemma {:induction false} MatchExact(fs: seq<Level>, ns: seq<Level>)
    requires HashLast(fs)
    ensures MatchLevels(fs, ns) <==> MatchStandard(fs, ns) && WildcardsFilled(fs, ns)
    decreases |fs|
  {
    if fs != [] && ns != [] {
      FilledStep(fs, ns);
      assert HashLast(fs[1..]);
      MatchExact(fs[1..], ns[1..]);
      assert |fs| > 1 ==> fs[0] != "#";
    } else if fs == ["#"] {
      assert fs[0] == "#" && !WildcardsFilled(fs, ns);
    }
  }

  /** What the standard matches has a level for every level of the filter, except perhaps for a last '#'. */
  lemma {:induction false} StandardLevels(fs: seq<Level>, ns: seq<Level>)
    requires HashLast(fs) && fs != [] && MatchStandard(fs, ns)
    ensures if fs[|fs| - 1] == "#" then |ns| >= |fs| - 1 else |ns| == |fs|
    decreases |fs|
  {
    if |fs| > 1 {
      assert HashLast(fs[1..]);
      StandardLevels(fs[1..], ns[1..]);
    }
  }

  ghost predicate NoneEmpty(ns: seq<Level>) {
    forall i :: 0 <= i < |ns| ==> ns[i] != []
  }

  lemma NoEmptyLevels(fs: seq<Level>, ns: seq<Level>)
    requires HashLast(fs) && fs != [] && MatchStandard(fs, ns) && NoneEmpty(ns)
    ensures WildcardsFilled(fs, ns) <==> !(fs[|fs| - 1] == "#" && |ns| == |fs| - 1)
  {
    hide MatchStandard;
    StandardLevels(fs, ns);
  }

  /** The matcher against the standard, for every valid filter and every name; and for names without empty levels,
      where only "p/#" differs, which does not match its parent `p`. */
  lemma MatcherVersusStandard(f: string, n: string)
    requires ValidFilter(f, true)
    ensures Scan(f, n) <==> MatchStandard(Levels(f), Levels(n)) && WildcardsFilled(Levels(f), Levels(n))
    ensures var fs, ns := Levels(f), Levels(n);
      NoneEmpty(ns) ==> (Scan(f, n) <==> MatchStandard(fs, ns) && !(fs[|fs| - 1] == "#" && |ns| == |fs| - 1))
  {
    ScanIsMatch(f, n, true);
    ValidHashLast(f, true);
    hide Levels, Scan, MatchLevels, MatchStandard, ValidFilter;
    var fs, ns := Levels(f), Levels(n);
    MatchExact(fs, ns);
    if MatchStandard(fs, ns) && NoneEmpty(ns) { NoEmptyLevels(fs, ns); }
  }

  /** Where a wildcard meets an empty level the source refuses what the standard accepts. */
  lemma EmptyLevelRefused()
    ensures !Scan("+/a", "/a") && MatchStandard(Levels("+/a"), Levels("/a"))
  {
    assert "+/a"[1..] == "/a" && "/a"[1..] == "a" && "a"[1..] == "";
    LevelsHead("a");
    LevelsSlash("/a");
    LevelsHead("+/a");
    var a, sa, pa := Levels("a"), Levels("/a"), Levels("+/a");
    assert Levels("")[0] == [] && Levels("/a")[0] == [] && ['+'] + [] == "+" && ['a'] + [] == "a";
    assert a == [a[0]] + a[1..] == ["a"];
    assert sa == [sa[0]] + sa[1..] == ["", "a"];
    assert pa == [pa[0]] + pa[1..] == ["+", "a"];
    assert pa[1..] == ["a"] && sa[1..] == ["a"] && a[1..] == [];
  }
}
