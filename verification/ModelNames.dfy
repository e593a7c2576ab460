/** Names of model artifacts: four parts joined by a double underscore, and the parser that splits them.

Splitting finds separators from the left and does not let them overlap, so a part that contains one, or
ends in an underscore that pairs up with the separator after it, is cut elsewhere. */
module ModelNames {
  import opened Wrappers

  function Replace(s: string, a: char, b: char): string {
    if s == "" then "" else [if s[0] == a then b else s[0]] + Replace(s[1..], a, b)
  }

  function Sanitize(metric: string): string {
    Replace(Replace(Replace(metric, '.', '_'), '/', '_'), ':', '_')
  }

  datatype Parts = Parts(agentID: string, metric: string, modelType: string, version: string)

  function Joined(p: Parts): string {
    p.agentID + "__" + (p.metric + "__" + (p.modelType + "__" + p.version))
  }

  function ModelName(agentID: string, metric: string, modelType: string, version: string): string {
    Joined(Parts(agentID, Sanitize(metric), modelType, version))
  }

  /** The pieces between separators. */
  function Split(s: string): (pieces: seq<string>)
    ensures pieces != []
  {
    if |s| < 2 then [s]
    else if s[0] == '_' && s[1] == '_' then [""] + Split(s[2..])
    else
      var rest := Split(s[1..]);
      [[s[0]] + rest[0]] + rest[1..]
  }

  function ParseModelName(name: string): Option<Parts> {
    var pieces := Split(name);
    if |pieces| != 4 then None else Some(Parts(pieces[0], pieces[1], pieces[2], pieces[3]))
  }

  // ----- sanitizing -----

  lemma {:induction false} ReplaceAt(s: string, a: char, b: char)
    ensures |Replace(s, a, b)| == |s|
    ensures forall i :: 0 <= i < |s| ==> Replace(s, a, b)[i] == if s[i] == a then b else s[i]
  {
    if s != "" {
      ReplaceAt(s[1..], a, b);
    }
  }

  predicate Unsafe(c: char) {
    c == '.' || c == '/' || c == ':'
  }

  /** Sanitizing keeps the length, turns every unsafe character into an underscore and leaves the rest. */
  lemma SanitizeAt(metric: string)
    ensures |Sanitize(metric)| == |metric|
    ensures forall i :: 0 <= i < |metric| ==> Sanitize(metric)[i] == if Unsafe(metric[i]) then '_' else metric[i]
  {
    var dots := Replace(metric, '.', '_');
    var slashes := Replace(dots, '/', '_');
    ReplaceAt(metric, '.', '_');
    ReplaceAt(dots, '/', '_');
    ReplaceAt(slashes, ':', '_');
  }

  /** Sanitizing changes a name exactly if it has an unsafe character, and never one that it made. */
  lemma SanitizeFixpoint(metric: string)
    ensures Sanitize(Sanitize(metric)) == Sanitize(metric)
    ensures Sanitize(metric) == metric <==> forall i :: 0 <= i < |metric| ==> !Unsafe(metric[i])
  {
    hide Sanitize;
    SanitizeAt(metric);
    SanitizeAt(Sanitize(metric));
  }

  // ----- splitting -----

  predicate HasSeparator(s: string) {
    exists i :: 0 <= i < |s| - 1 && s[i] == '_' && s[i + 1] == '_'
  }

  /** A part that survives in front of a separator. */
  predicate Clean(s: string) {
    !HasSeparator(s) && (s == "" || s[|s|-1] != '_')
  }

  lemma SeparatorInTail(s: string)
    requires |s| >= 2
    ensures HasSeparator(s) <==> (s[0] == '_' && s[1] == '_') || HasSeparator(s[1..])
  {
    if HasSeparator(s) && !(s[0] == '_' && s[1] == '_') {
      var i :| 0 <= i < |s| - 1 && s[i] == '_' && s[i + 1] == '_';
      assert s[1..][i - 1] == '_' && s[1..][i] == '_';
    }
    if HasSeparator(s[1..]) {
      var i :| 0 <= i < |s| - 2 && s[1..][i] == '_' && s[1..][i + 1] == '_';
      assert s[i + 1] == '_' && s[i + 2] == '_';
    }
  }

  lemma {:induction false} NoSeparatorNoSplit(s: string)
    requires !HasSeparator(s)
    ensures Split(s) == [s]
  {
    if |s| >= 2 {
      SeparatorInTail(s);
      NoSeparatorNoSplit(s[1..]);
      assert [s[0]] + s[1..] == s;
    }
  }

  /** Splitting cuts right behind a clean part. */
  lemma {:induction false} SplitClean(p: string, rest: string)
    requires Clean(p)
    ensures Split(p + "__" + rest) == [p] + Split(rest)
  {
    var s := p + "__" + rest;
    if p == "" {
      assert s[2..] == rest;
    } else {
      assert s[1..] == p[1..] + "__" + rest;
      if |p| >= 2 {
        SeparatorInTail(p);
      }
      SplitClean(p[1..], rest);
      assert [p[0]] + p[1..] == p;
    }
  }

  /** An underscore in front of a separator is taken for half of it. */
  lemma {:induction false} SplitDirty(p: string, rest: string)
    requires p != "" && !HasSeparator(p) && p[|p|-1] == '_'
    ensures Split(p + "__" + rest) == [p[..|p|-1]] + Split("_" + rest)
  {
    var s := p + "__" + rest;
    if |p| == 1 {
      assert s[2..] == "_" + rest;
      assert p[..|p|-1] == "";
    } else {
      assert s[1..] == p[1..] + "__" + rest;
      SeparatorInTail(p);
      SplitDirty(p[1..], rest);
      assert [p[0]] + p[1..][..|p|-2] == p[..|p|-1];
    }
  }

  lemma {:induction false} FirstPieceHasNone(s: string)
    ensures !HasSeparator(Split(s)[0])
    ensures Split(s)[0] <= s
  {
    if |s| >= 2 && !(s[0] == '_' && s[1] == '_') {
      FirstPieceHasNone(s[1..]);
      var head := Split(s[1..])[0];
      assert Split(s)[0] == [s[0]] + head;
      if |head| >= 1 {
        assert head[0] == s[1];
        assert ([s[0]] + head)[1..] == head;
        SeparatorInTail([s[0]] + head);
      }
    }
  }

  /** The part in front of a separator is found exactly if it is clean. */
  lemma FirstPartFound(p: string, rest: string)
    ensures Split(p + "__" + rest) == [p] + Split(rest) <==> Clean(p)
    ensures Split(p + "__" + rest)[0] == p <==> Clean(p)
  {
    FirstPieceHasNone(p + "__" + rest);
    if Clean(p) {
      SplitClean(p, rest);
    } else if !HasSeparator(p) {
      SplitDirty(p, rest);
    }
  }

  function Join(pieces: seq<string>): string
    requires pieces != []
  {
    if |pieces| == 1 then pieces[0] else pieces[0] + "__" + Join(pieces[1..])
  }

  lemma JoinPrefix(c: char, pieces: seq<string>)
    requires pieces != []
    ensures Join([[c] + pieces[0]] + pieces[1..]) == [c] + Join(pieces)
  {
    if |pieces| > 1 {
      assert ([[c] + pieces[0]] + pieces[1..])[1..] == pieces[1..];
    }
  }

  /** Splitting loses nothing. */
  lemma {:induction false} JoinSplit(s: string)
    ensures Join(Split(s)) == s
  {
    if |s| >= 2 {
      if s[0] == '_' && s[1] == '_' {
        JoinSplit(s[2..]);
        assert ([""] + Split(s[2..]))[1..] == Split(s[2..]);
        assert "" + "__" + s[2..] == s;
      } else {
        JoinSplit(s[1..]);
        JoinPrefix(s[0], Split(s[1..]));
        assert [s[0]] + s[1..] == s;
      }
    }
  }

  // ----- round trips -----

  predicate CleanParts(p: Parts) {
    Clean(p.agentID) && Clean(p.metric) && Clean(p.modelType) && !HasSeparator(p.version)
  }

  lemma CleanPartsSplit(p: Parts)
    requires CleanParts(p)
    ensures Split(Joined(p)) == [p.agentID, p.metric, p.modelType, p.version]
  {
    hide Split;
    SplitClean(p.agentID, p.metric + "__" + (p.modelType + "__" + p.version));
    SplitClean(p.metric, p.modelType + "__" + p.version);
    SplitClean(p.modelType, p.version);
    NoSeparatorNoSplit(p.version);
  }

  lemma SplitPartsClean(p: Parts)
    requires Split(Joined(p)) == [p.agentID, p.metric, p.modelType, p.version]
    ensures CleanParts(p)
  {
    hide Split, Clean, HasSeparator;
    FirstPartFound(p.agentID, p.metric + "__" + (p.modelType + "__" + p.version));
    assert Split(p.metric + "__" + (p.modelType + "__" + p.version)) == Split(Joined(p))[1..];
    FirstPartFound(p.metric, p.modelType + "__" + p.version);
    assert Split(p.modelType + "__" + p.version) == Split(Joined(p))[2..];
    FirstPartFound(p.modelType, p.version);
    assert Split(p.version) == Split(Joined(p))[3..];
    FirstPieceHasNone(p.version);
  }

  lemma FourJoined(p: Parts)
    ensures Join([p.agentID, p.metric, p.modelType, p.version]) == Joined(p)
  {
    var pieces := [p.agentID, p.metric, p.modelType, p.version];
    assert pieces[1..] == [p.metric, p.modelType, p.version];
    assert pieces[1..][1..] == [p.modelType, p.version];
    assert pieces[1..][1..][1..] == [p.version];
    assert Join([p.version]) == p.version;
    assert Join([p.modelType, p.version]) == p.modelType + "__" + p.version;
    assert Join([p.metric, p.modelType, p.version]) == p.metric + "__" + (p.modelType + "__" + p.version);
  }

  lemma JoinedInARow(p: Parts)
    ensures Joined(p) == p.agentID + "__" + p.metric + "__" + p.modelType + "__" + p.version
  {}

  /** The parser accepts exactly the names joined from clean parts, and answers those parts. */
  lemma ParseExact(name: string, p: Parts)
    ensures ParseModelName(name) == Some(p)
            <==> && name == p.agentID + "__" + p.metric + "__" + p.modelType + "__" + p.version
                 && Clean(p.agentID) && Clean(p.metric) && Clean(p.modelType) && !HasSeparator(p.version)
  {
    JoinedInARow(p);
    hide Split, Joined, Clean, HasSeparator;
    if ParseModelName(name) == Some(p) {
      var pieces := Split(name);
      assert pieces == [p.agentID, p.metric, p.modelType, p.version];
      JoinSplit(name);
      FourJoined(p);
      SplitPartsClean(p);
    }
    if name == Joined(p) && CleanParts(p) {
      CleanPartsSplit(p);
    }
  }

  /** A name that was built parses back to its parts exactly if no part contains a separator and none but
      the version ends in an underscore, the metric being taken as sanitized. */
  lemma RoundTripIff(agentID: string, metric: string, modelType: string, version: string)
    ensures ParseModelName(ModelName(agentID, metric, modelType, version))
            == Some(Parts(agentID, Sanitize(metric), modelType, version))
            <==> Clean(agentID) && Clean(Sanitize(metric)) && Clean(modelType) && !HasSeparator(version)
    ensures ModelName(agentID, metric, modelType, version)
            == agentID + "__" + Sanitize(metric) + "__" + modelType + "__" + version
  {
    var p := Parts(agentID, Sanitize(metric), modelType, version);
    ParseExact(Joined(p), p);
    JoinedInARow(p);
  }

  /** Different clean parts never get the same name. */
  lemma NamesDistinct(p: Parts, q: Parts)
    requires CleanParts(p) && CleanParts(q) && Joined(p) == Joined(q)
    ensures p == q
  {
    hide Joined, ParseModelName, Clean, HasSeparator;
    JoinedInARow(p);
    JoinedInARow(q);
    ParseExact(Joined(p), p);
    ParseExact(Joined(p), q);
  }
}
