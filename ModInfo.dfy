/**
  * The mod descriptor records of CosmoteerModLib/ModInfo.cs after JSON
  * deserialization, and the dependency-token validator of ModDependencyInfo.
  */
module ModInfos {
  import opened Wrappers

  /** A parsed dependency token. `modName` is the whole token, including a trailing '?'. */
  datatype ModDependencyInfo = ModDependencyInfo(modName: string, isOptional: bool)

  /** A mod descriptor: its name, its assembly path and its parsed dependencies. */
  datatype ModInfo = ModInfo(modName: string, assemblyPath: string, dependencies: seq<ModDependencyInfo>)

  /** ModDependencyParseException, carrying the rejected string. */
  datatype ModDependencyParseError = ModDependencyParseException(dependencyString: string)

  /** The regex class `[A-z0-9]`: the ASCII range 'A'..'z' also holds `[ \ ] ^ _` and the backtick. */
  predicate IsSegmentChar(c: char)
  {
    ('A' <= c <= 'z') || ('0' <= c <= '9')
  }

  /** `s[a..b]` is a non-empty run of segment characters. */
  ghost predicate IsSegment(s: string, a: nat, b: nat)
  {
    a < b <= |s| && forall k :: a <= k < b ==> IsSegmentChar(s[k])
  }

  /** `s` splits at the dots `i` and `j` into `seg.seg.seg`, with or without one trailing '?'. */
  ghost predicate TokenSplit(s: string, i: nat, j: nat)
  {
    i < j < |s| && s[i] == '.' && s[j] == '.' &&
    IsSegment(s, 0, i) && IsSegment(s, i + 1, j) &&
    (IsSegment(s, j + 1, |s|) || (s[|s| - 1] == '?' && IsSegment(s, j + 1, |s| - 1)))
  }

  /**
    * Declarative form of an accepted token: three non-empty segments separated
    * by '.', optionally followed by one '?', and nothing else.
    */
  ghost predicate IsDependencyToken(s: string)
  {
    exists i: nat, j: nat :: TokenSplit(s, i, j)
  }

  /** End of the longest run of segment characters starting at `p` (the greedy `[A-z0-9]+`). */
  function SegmentEnd(s: string, p: nat): (e: nat)
    requires p <= |s|
    ensures p <= e <= |s|
    ensures forall k :: p <= k < e ==> IsSegmentChar(s[k])
    ensures e == |s| || !IsSegmentChar(s[e])
    decreases |s| - p
  {
    if p == |s| || !IsSegmentChar(s[p]) then p else SegmentEnd(s, p + 1)
  }

  /**
    * End of the match of `([A-z0-9]+)[.]([A-z0-9]+)[.]([A-z0-9]+)([?]?)` that
    * starts at `p`, if one does. Neither '.' nor '?' is a segment character, so
    * backtracking into a segment never helps and the greedy run decides each part.
    */
  function MatchAt(s: string, p: nat): (r: Option<nat>)
    requires p <= |s|
    ensures r.Some? ==> p + 5 <= r.value <= |s|
  {
    var e1 := SegmentEnd(s, p);
    if e1 == p || e1 == |s| || s[e1] != '.' then None
    else
      var e2 := SegmentEnd(s, e1 + 1);
      if e2 == e1 + 1 || e2 == |s| || s[e2] != '.' then None
      else
        var e3 := SegmentEnd(s, e2 + 1);
        if e3 == e2 + 1 then None
        else if e3 < |s| && s[e3] == '?' then Some(e3 + 1)
        else Some(e3)
  }

  /** `Regex.Match`: the leftmost match at or after `p`, as (index, length). */
  function FirstMatch(s: string, p: nat): (r: Option<(nat, nat)>)
    requires p <= |s|
    ensures r.Some? ==> p <= r.value.0 && r.value.0 + r.value.1 <= |s|
    ensures r.Some? && r.value.0 == p ==> MatchAt(s, p) == Some(p + r.value.1)
    decreases |s| - p
  {
    match MatchAt(s, p)
    case Some(e) => Some((p, e - p))
    case None => if p == |s| then None else FirstMatch(s, p + 1)
  }

  /** The acceptance test of the constructor: `match.Success && match.Length == dependencyString.Length`. */
  predicate IsValidDependencyString(s: string): (b: bool)
    ensures b ==> 5 <= |s| && MatchAt(s, 0) == Some(|s|)
  {
    match FirstMatch(s, 0)
    case Some(m) => m.1 == |s|
    case None => false
  }

  lemma {:induction false} SegmentEndAt(s: string, p: nat, e: nat)
    requires p <= e <= |s|
    requires forall k :: p <= k < e ==> IsSegmentChar(s[k])
    requires e == |s| || !IsSegmentChar(s[e])
    ensures SegmentEnd(s, p) == e
    decreases e - p
  {
    if p < e {
      SegmentEndAt(s, p + 1, e);
    }
  }

  lemma AcceptedIsToken(s: string)
    requires IsValidDependencyString(s)
    ensures IsDependencyToken(s)
  {
    var m := FirstMatch(s, 0).value;
    assert m.0 == 0;
    var e1 := SegmentEnd(s, 0);
    var e2 := SegmentEnd(s, e1 + 1);
    assert TokenSplit(s, e1, e2);
  }

  lemma TokenIsAccepted(s: string)
    requires IsDependencyToken(s)
    ensures IsValidDependencyString(s)
  {
    var i: nat, j: nat :| TokenSplit(s, i, j);
    SegmentEndAt(s, 0, i);
    SegmentEndAt(s, i + 1, j);
    if IsSegment(s, j + 1, |s|) {
      SegmentEndAt(s, j + 1, |s|);
    } else {
      SegmentEndAt(s, j + 1, |s| - 1);
    }
    assert MatchAt(s, 0) == Some(|s|);
  }

  /** The regex test accepts exactly the strings of the declarative token shape. */
  lemma ValidDependencyStringIff(s: string)
    ensures IsValidDependencyString(s) <==> IsDependencyToken(s)
  {
    if IsValidDependencyString(s) {
      AcceptedIsToken(s);
    }
    if IsDependencyToken(s) {
      TokenIsAccepted(s);
    }
  }

  /**
    * The ModDependencyInfo constructor: accepts a token of the form
    * `seg.seg.seg` with an optional trailing '?', keeping the whole string
    * as the name; anything else raises a parse error carrying the string.
    */
  function ParseDependency(s: string): (r: Result<ModDependencyInfo, ModDependencyParseError>)
    ensures r.Success? <==> IsDependencyToken(s)
    ensures r.Success? ==> r.value.modName == s
    ensures r.Success? ==> (r.value.isOptional <==> s[|s| - 1] == '?')
    ensures r.Failure? ==> r.error.dependencyString == s
  {
    ValidDependencyStringIff(s);
    if IsValidDependencyString(s) then
      Success(ModDependencyInfo(s, |s| > 0 && s[|s| - 1] == '?'))
    else
      Failure(ModDependencyParseException(s))
  }

  /** ModDependencyInfo.ToString */
  function DependencyToString(d: ModDependencyInfo): string
  {
    d.modName
  }

  /** Printing a parsed dependency gives back the token it was parsed from. */
  lemma ToStringRoundTrip(s: string)
    requires IsDependencyToken(s)
    ensures ParseDependency(s).Success?
    ensures DependencyToString(ParseDependency(s).value) == s
  {
  }

  /**
    * `DependencyStrings.Select(s => new ModDependencyInfo(s)).ToArray()`:
    * parses every string in order; the first rejected string aborts the whole map.
    */
  function ParseDependencies(strs: seq<string>): (r: Result<seq<ModDependencyInfo>, ModDependencyParseError>)
    ensures r.Success? <==> forall k :: 0 <= k < |strs| ==> IsDependencyToken(strs[k])
    ensures r.Success? ==> |r.value| == |strs|
    ensures r.Success? ==> forall k :: 0 <= k < |strs| ==> ParseDependency(strs[k]) == Success(r.value[k])
    ensures r.Failure? ==>
      (exists k :: 0 <= k < |strs| && !IsDependencyToken(strs[k]) &&
        r.error == ModDependencyParseException(strs[k]) &&
        forall j :: 0 <= j < k ==> IsDependencyToken(strs[j]))
  {
    if |strs| == 0 then Success([])
    else
      match ParseDependency(strs[0])
      case Failure(e) =>
        assert !IsDependencyToken(strs[0]);
        Failure(e)
      case Success(d) =>
        match ParseDependencies(strs[1..])
        case Failure(e) =>
          ParseFailureTail(strs, e);
          Failure(e)
        case Success(ds) =>
          ParseSuccessCons(strs, d, ds);
          Success([d] + ds)
  }

  /** A rejected string of the tail, behind an accepted head, is the first rejected string of the whole list. */
  lemma ParseFailureTail(strs: seq<string>, e: ModDependencyParseError)
    requires |strs| > 0 && IsDependencyToken(strs[0])
    requires exists k :: (0 <= k < |strs[1..]| && !IsDependencyToken(strs[1..][k]) &&
      e == ModDependencyParseException(strs[1..][k]) &&
      forall j :: 0 <= j < k ==> IsDependencyToken(strs[1..][j]))
    ensures exists k :: (0 <= k < |strs| && !IsDependencyToken(strs[k]) &&
      e == ModDependencyParseException(strs[k]) &&
      forall j :: 0 <= j < k ==> IsDependencyToken(strs[j]))
  {
    var k :| 0 <= k < |strs[1..]| && !IsDependencyToken(strs[1..][k]) &&
      e == ModDependencyParseException(strs[1..][k]) &&
      forall j :: 0 <= j < k ==> IsDependencyToken(strs[1..][j]);
    assert strs[k + 1] == strs[1..][k];
    forall j | 0 <= j < k + 1
      ensures IsDependencyToken(strs[j])
    {
      if j > 0 {
        assert strs[j] == strs[1..][j - 1];
      }
    }
  }

  /** Parsing an accepted head in front of a fully parsed tail parses every string, index by index. */
  lemma ParseSuccessCons(strs: seq<string>, d: ModDependencyInfo, ds: seq<ModDependencyInfo>)
    requires |strs| > 0 && ParseDependency(strs[0]) == Success(d)
    requires |ds| == |strs[1..]|
    requires forall k :: 0 <= k < |strs[1..]| ==> ParseDependency(strs[1..][k]) == Success(ds[k])
    ensures forall k :: 0 <= k < |strs| ==> ParseDependency(strs[k]) == Success(([d] + ds)[k])
  {
    forall k | 0 <= k < |strs|
      ensures ParseDependency(strs[k]) == Success(([d] + ds)[k])
    {
      if k > 0 {
        assert strs[k] == strs[1..][k - 1];
      }
    }
  }

  /**
    * ModInfo.OnDeserialized: the deserialized name, assembly path and
    * dependency strings (empty when the descriptor lists none) become a
    * ModInfo whose `Dependencies` map the strings one to one.
    */
  function OnDeserialized(name: string, assemblyPath: string, dependencyStrings: seq<string>): (r: Result<ModInfo, ModDependencyParseError>)
    ensures r.Success? <==> forall k :: 0 <= k < |dependencyStrings| ==> IsDependencyToken(dependencyStrings[k])
    ensures r.Success? ==> r.value.modName == name && r.value.assemblyPath == assemblyPath
    ensures r.Success? ==> |r.value.dependencies| == |dependencyStrings|
    ensures r.Success? ==> forall k :: 0 <= k < |dependencyStrings| ==>
      ParseDependency(dependencyStrings[k]) == Success(r.value.dependencies[k])
    ensures r.Failure? ==>
      (exists k :: 0 <= k < |dependencyStrings| && !IsDependencyToken(dependencyStrings[k]) &&
        r.error == ModDependencyParseException(dependencyStrings[k]) &&
        forall j :: 0 <= j < k ==> IsDependencyToken(dependencyStrings[j]))
    ensures dependencyStrings == [] ==> r == Success(ModInfo(name, assemblyPath, []))
  {
    match ParseDependencies(dependencyStrings)
    case Success(ds) => Success(ModInfo(name, assemblyPath, ds))
    case Failure(e) => Failure(e)
  }
}
