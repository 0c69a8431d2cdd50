/**
 * The `.sdkmanrc` file of a project: one `candidate=version` pair per line,
 * with blank lines and `#` comments ignored. This is the body of
 * `parse_sdkmanrc` once the file has been read (the `parse_sdkmanrc_content`
 * the tests call).
 */
module Sdkmanrc {
  import opened Wrappers
  import opened Text

  /** A line that declares nothing: empty after trimming, or a comment. */
  predicate Ignored(line: string) {
    var l := Trim(line);
    l == [] || l[0] == '#'
  }

  /**
   * What one line declares: the trimmed text before its first '=' and the
   * trimmed text after it; nothing for an ignored line or one without '='.
   */
  function ParseLine(line: string): Option<(string, string)> {
    var l := Trim(line);
    if l == [] || l[0] == '#' then None
    else
      var split := SplitOnce(l, '=');
      if split.None? then None else Some((Trim(split.value.0), Trim(split.value.1)))
  }

  /** A line declares something unless it is ignored or holds no '='; keys and values come trimmed. */
  lemma {:induction false} ParseLineShape(line: string)
    ensures ParseLine(line).None? <==> Ignored(line) || '=' !in Trim(line)
    ensures ParseLine(line).Some? ==> IsTrimmed(ParseLine(line).value.0) && IsTrimmed(ParseLine(line).value.1)
  {
    var l := Trim(line);
    if !Ignored(line) && '=' in l {
      var split := SplitOnce(l, '=');
      TrimFixedPoint(split.value.0);
      TrimFixedPoint(split.value.1);
    }
  }

  /** What each of `lines` declares, line by line. */
  function Declarations(lines: seq<string>): (ds: seq<Option<(string, string)>>)
    ensures |ds| == |lines|
  {
    seq(|lines|, i requires 0 <= i < |lines| => ParseLine(lines[i]))
  }

  /** The map the declarations `ds` build, in order; a later one with the same key replaces an earlier one. */
  function Fold(ds: seq<Option<(string, string)>>): map<string, string> {
    if ds == [] then map[]
    else
      var m := Fold(ds[..|ds| - 1]);
      var d := ds[|ds| - 1];
      if d.Some? then m[d.value.0 := d.value.1] else m
  }

  /** The declarations of `lines`. */
  function ParseLines(lines: seq<string>): map<string, string> {
    Fold(Declarations(lines))
  }

  /** `parse_sdkmanrc_content`. */
  function ParseContent(content: string): map<string, string> {
    ParseLines(Lines(content))
  }

  /** The parsing loop of `parse_sdkmanrc`, over the lines of the file's content. */
  method ParseSdkmanrcContent(content: string) returns (versions: map<string, string>)
    ensures versions == ParseContent(content)
  {
    var lines := Lines(content);
    ghost var ds := Declarations(lines);
    versions := map[];
    for i := 0 to |lines|
      invariant versions == Fold(ds[..i])
    {
      assert ds[..i + 1][..i] == ds[..i];
      assert ds[i] == ParseLine(lines[i]);
      var line := Trim(lines[i]);
      if line == [] || line[0] == '#' {
        continue;
      }
      var split := SplitOnce(line, '=');
      if split.Some? {
        versions := versions[Trim(split.value.0) := Trim(split.value.1)];
      }
    }
    assert ds[..|lines|] == ds;
  }

  /** One more line adds what it declares, replacing an earlier value of the same key. */
  lemma ParseLinesSnoc(ls: seq<string>, l: string)
    ensures ParseLines(ls + [l]) ==
      (match ParseLine(l) case None => ParseLines(ls) case Some(d) => ParseLines(ls)[d.0 := d.1])
  {
    assert Declarations(ls + [l])[..|ls|] == Declarations(ls);
  }

  /** Content written line by line, each line free of line breaks, reads back as those lines. */
  lemma ReadTerminated(ls: seq<string>)
    requires OwnLines(ls)
    ensures ParseContent(Terminated(ls)) == ParseLines(ls)
  {
    TerminatedJoin(ls);
    LinesOfTerminated(ls);
  }

  // ------------------------------------------------------------------ shape

  /** A line with text before its first '=' splits there, and both sides are trimmed. */
  lemma {:induction false} ParseLineSplit(line: string, key: string, value: string)
    requires Trim(line) == key + "=" + value && '=' !in key
    requires !Ignored(line)
    ensures ParseLine(line) == Some((Trim(key), Trim(value)))
  {
    SplitOnceUnique(key, '=', value);
  }

  /** Exactly the keys some declaration names are defined. */
  lemma {:induction false} FoldKeys(ds: seq<Option<(string, string)>>, key: string)
    ensures key in Fold(ds) <==> exists i :: 0 <= i < |ds| && ds[i].Some? && ds[i].value.0 == key
  {
    if ds != [] {
      var init := ds[..|ds| - 1];
      FoldKeys(init, key);
      assert forall i :: 0 <= i < |init| ==> init[i] == ds[i];
    }
  }

  /** A key has the value of the last declaration that names it. */
  lemma {:induction false} FoldLastWins(ds: seq<Option<(string, string)>>, i: nat, key: string, value: string)
    requires i < |ds| && ds[i] == Some((key, value))
    requires forall j :: i < j < |ds| ==> ds[j].None? || ds[j].value.0 != key
    ensures key in Fold(ds) && Fold(ds)[key] == value
  {
    var init := ds[..|ds| - 1];
    if i < |ds| - 1 {
      assert init[i] == ds[i];
      assert forall j :: i < j < |init| ==> init[j] == ds[j];
      FoldLastWins(init, i, key, value);
    }
  }

  /** Declarations that all declare nothing build the empty map. */
  lemma {:induction false} FoldNothing(ds: seq<Option<(string, string)>>)
    requires forall i :: 0 <= i < |ds| ==> ds[i].None?
    ensures Fold(ds) == map[]
  {
    if ds != [] {
      var init := ds[..|ds| - 1];
      assert forall i :: 0 <= i < |init| ==> init[i] == ds[i];
      FoldNothing(init);
    }
  }

  /** Exactly the keys some line declares are defined. */
  lemma {:induction false} ParsedKeys(lines: seq<string>, key: string)
    ensures key in ParseLines(lines) <==>
      exists i :: 0 <= i < |lines| && ParseLine(lines[i]).Some? && ParseLine(lines[i]).value.0 == key
  {
    var ds := Declarations(lines);
    FoldKeys(ds, key);
    assert forall i :: 0 <= i < |lines| ==> ds[i] == ParseLine(lines[i]);
  }

  /** A key has the value of the last line that declares it. */
  lemma {:induction false} LastDeclarationWins(lines: seq<string>, i: nat, key: string, value: string)
    requires i < |lines| && ParseLine(lines[i]) == Some((key, value))
    requires forall j :: i < j < |lines| ==> ParseLine(lines[j]).None? || ParseLine(lines[j]).value.0 != key
    ensures key in ParseLines(lines) && ParseLines(lines)[key] == value
  {
    var ds := Declarations(lines);
    assert ds[i] == ParseLine(lines[i]);
    forall j | i < j < |ds|
      ensures ds[j].None? || ds[j].value.0 != key
    {
      assert ds[j] == ParseLine(lines[j]);
    }
    FoldLastWins(ds, i, key, value);
  }

  /** A line that declares nothing leaves the result as it was. */
  lemma {:induction false} AppendIgnored(lines: seq<string>, more: string)
    requires Ignored(more) || '=' !in Trim(more)
    ensures ParseLines(lines + [more]) == ParseLines(lines)
  {
    ParseLineShape(more);
    assert Declarations(lines + [more])[..|lines|] == Declarations(lines);
  }

  /** Content made only of blank lines and comments declares nothing. */
  lemma {:induction false} OnlyIgnored(lines: seq<string>)
    requires forall i :: 0 <= i < |lines| ==> Ignored(lines[i])
    ensures ParseLines(lines) == map[]
  {
    var ds := Declarations(lines);
    forall i | 0 <= i < |lines|
      ensures ds[i].None?
    {
      ParseLineShape(lines[i]);
    }
    FoldNothing(ds);
  }

  /** Empty content declares nothing. */
  lemma EmptyContent()
    ensures ParseContent("") == map[]
  {
  }

  // ------------------------------------------------------- the file as written

  /** One `key=value` line as `env init` writes it. */
  function DeclarationLine(key: string, value: string): string {
    key + "=" + value
  }

  /** A plain key and value are read back from the line that declares them. */
  lemma {:induction false} DeclarationRoundTrip(key: string, value: string)
    requires key != [] && IsTrimmed(key) && IsTrimmed(value)
    requires '=' !in key && key[0] != '#'
    ensures ParseLine(DeclarationLine(key, value)) == Some((key, value))
  {
    var l := DeclarationLine(key, value);
    assert l[0] == key[0] && l[|l| - 1] == (if value == [] then '=' else value[|value| - 1]);
    assert IsTrimmed(l);
    TrimFixedPoint(l);
    ParseLineSplit(l, key, value);
    TrimFixedPoint(key);
    TrimFixedPoint(value);
  }

  // ---------------------------------------------------------- worked examples

  /** Three lines, each ended by "\n", are read as three declarations. */
  lemma {:induction false} ThreeLines(a: string, b: string, c: string)
    requires '\n' !in a && '\n' !in b && '\n' !in c
    requires StripCarriageReturn(a) == a && StripCarriageReturn(b) == b && StripCarriageReturn(c) == c
    ensures ParseContent(a + "\n" + b + "\n" + c + "\n") == Fold([ParseLine(a), ParseLine(b), ParseLine(c)])
  {
    var ls := [a, b, c];
    assert Join([c, ""], "\n") == c + "\n" + "";
    assert [b, c, ""][1..] == [c, ""];
    assert Join([b, c, ""], "\n") == b + "\n" + (c + "\n" + "");
    assert ls + [""] == [a, b, c, ""] && [a, b, c, ""][1..] == [b, c, ""];
    assert Join(ls + [""], "\n") == a + "\n" + b + "\n" + c + "\n";
    LinesOfTerminated(ls);
    var ds := Declarations(ls);
    assert ds[0] == ParseLine(a) && ds[1] == ParseLine(b) && ds[2] == ParseLine(c);
    assert ds == [ds[0], ds[1], ds[2]];
  }

  /** A key as a `.sdkmanrc` line can hold it: non-empty, trimmed, on one line, no '=' and not a comment. */
  predicate PlainKey(k: string) {
    k != [] && IsTrimmed(k) && '=' !in k && k[0] != '#' && '\n' !in k
  }

  /** A value as a `.sdkmanrc` line can hold it: trimmed and on one line. */
  predicate PlainValue(v: string) {
    IsTrimmed(v) && '\n' !in v
  }

  /** A declaration line written from a plain key and value is a line of its own. */
  lemma {:induction false} DeclarationLineIsLine(key: string, value: string)
    requires PlainKey(key) && PlainValue(value)
    ensures '\n' !in DeclarationLine(key, value)
    ensures StripCarriageReturn(DeclarationLine(key, value)) == DeclarationLine(key, value)
  {
    var l := DeclarationLine(key, value);
    assert l[|l| - 1] == (if value == [] then '=' else value[|value| - 1]);
  }

  /**
   * A file of three declaration lines, each ended by "\n" (the shape of the
   * basic file the tests read), gives the three pairs; a later key replaces an earlier one.
   */
  lemma {:induction false} ThreeDeclarations(k1: string, v1: string, k2: string, v2: string, k3: string, v3: string)
    requires PlainKey(k1) && PlainKey(k2) && PlainKey(k3)
    requires PlainValue(v1) && PlainValue(v2) && PlainValue(v3)
    ensures ParseContent(DeclarationLine(k1, v1) + "\n" + DeclarationLine(k2, v2) + "\n" + DeclarationLine(k3, v3) + "\n")
      == map[k1 := v1][k2 := v2][k3 := v3]
  {
    DeclarationLineIsLine(k1, v1);
    DeclarationLineIsLine(k2, v2);
    DeclarationLineIsLine(k3, v3);
    ThreeLines(DeclarationLine(k1, v1), DeclarationLine(k2, v2), DeclarationLine(k3, v3));
    DeclarationRoundTrip(k1, v1);
    DeclarationRoundTrip(k2, v2);
    DeclarationRoundTrip(k3, v3);
    FoldThree((k1, v1), (k2, v2), (k3, v3));
  }

  /** Three declarations build the map of the three, in order. */
  lemma {:induction false} FoldThree(p1: (string, string), p2: (string, string), p3: (string, string))
    ensures Fold([Some(p1), Some(p2), Some(p3)]) == map[p1.0 := p1.1][p2.0 := p2.1][p3.0 := p3.1]
  {
    var ds := [Some(p1), Some(p2), Some(p3)];
    assert ds[..2] == [Some(p1), Some(p2)] && ds[..2][..1] == [Some(p1)] && ds[..2][..1][..0] == [];
    assert Fold([Some(p1)]) == map[p1.0 := p1.1];
    assert Fold([Some(p1), Some(p2)]) == map[p1.0 := p1.1][p2.0 := p2.1];
  }

  /** Whitespace around the key, the '=' and the value is trimmed away. */
  lemma {:induction false} PaddedLine(a: string, key: string, s1: string, s2: string, value: string, b: string)
    requires AllWhitespace(a) && AllWhitespace(s1) && AllWhitespace(s2) && AllWhitespace(b)
    requires PlainKey(key) && PlainValue(value) && value != []
    ensures ParseLine(a + key + s1 + "=" + s2 + value + b) == Some((key, value))
  {
    var mid := key + s1 + "=" + s2 + value;
    assert mid[0] == key[0] && mid[|mid| - 1] == value[|value| - 1];
    TrimPadded(a, mid, b);
    Regroup(a, key, s1, s2, value, b);
    PaddedSides(key, s1, s2, value);
    ParseLineSplit(a + mid + b, key + s1, s2 + value);
  }

  lemma Regroup(a: string, key: string, s1: string, s2: string, value: string, b: string)
    ensures a + key + s1 + "=" + s2 + value + b == a + (key + s1 + "=" + s2 + value) + b
  {
  }

  /** The two sides of a padded '=' trim to the key and the value. */
  lemma {:induction false} PaddedSides(key: string, s1: string, s2: string, value: string)
    requires AllWhitespace(s1) && AllWhitespace(s2)
    requires PlainKey(key) && PlainValue(value) && value != []
    ensures key + s1 + "=" + s2 + value == (key + s1) + "=" + (s2 + value)
    ensures '=' !in key + s1 && Trim(key + s1) == key && Trim(s2 + value) == value
  {
    assert '=' !in key + s1 by {
      forall i | 0 <= i < |s1| ensures s1[i] != '=' {
        assert IsWhitespace(s1[i]);
      }
    }
    TrimPadded([], key, s1);
    assert [] + key + s1 == key + s1;
    TrimPadded(s2, value, []);
    assert s2 + value + [] == s2 + value;
  }

  /** A line that starts with '=' declares the empty key. */
  lemma {:induction false} EmptyKey(value: string)
    requires PlainValue(value)
    ensures ParseLine("=" + value) == Some(([], value))
  {
    var l := "=" + value;
    LeadingEquals(value);
    assert l[1..] == value;
    assert SplitOnce(l, '=') == Some(([], value));
    TrimFixedPoint(value);
  }

  /** A line made of '=' and a plain value is trimmed already and is not ignored. */
  lemma LeadingEquals(value: string)
    requires PlainValue(value)
    ensures Trim("=" + value) == "=" + value && !Ignored("=" + value)
  {
    var l := "=" + value;
    assert l[0] == '=' && l[|l| - 1] == (if value == [] then '=' else value[|value| - 1]);
    TrimFixedPoint(l);
  }

  /** A line that ends with '=' gives its key the empty value. */
  lemma {:induction false} EmptyValue(key: string)
    requires PlainKey(key)
    ensures ParseLine(key + "=") == Some((key, []))
  {
    assert key + "=" == DeclarationLine(key, []);
    DeclarationRoundTrip(key, []);
  }
}
