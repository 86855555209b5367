/** `parseDotEnv` of `scripts/generate-env.js`: reads `KEY=value` lines of a `.env` file into a
    string map, the input of the generated configuration module. */
module DotEnv {

  import opened Wrappers
  import opened Text

  /** `content.split(/\r?\n/)`. The leftmost separator ends at the first `\n` and takes in the
      `\r` right before it, if any. */
  function SplitLines(s: string): (r: seq<string>)
    ensures |r| >= 1
    ensures forall i :: 0 <= i < |r| ==> '\n' !in r[i]
    decreases |s|
  {
    match IndexOf(s, '\n')
    case None => [s]
    case Some(k) =>
      var line := if k > 0 && s[k - 1] == '\r' then s[..k - 1] else s[..k];
      assert forall j :: 0 <= j < |line| ==> line[j] == s[..k][j];
      [line] + SplitLines(s[k + 1..])
  }

  /** `content.split('\n')`, the split the parser would make if it ignored carriage returns. */
  function SplitOnNewline(s: string): (r: seq<string>)
    ensures |r| >= 1
    ensures forall i :: 0 <= i < |r| ==> '\n' !in r[i]
    decreases |s|
  {
    match IndexOf(s, '\n')
    case None => [s]
    case Some(k) => [s[..k]] + SplitOnNewline(s[k + 1..])
  }

  /** `val.slice(1, -1)` when the value both starts and ends with the same quote character,
      double or single; any other value is kept. A lone quote character becomes empty. */
  function Unquote(v: string): (r: string)
    ensures |v| >= 2 && (v[0] == '"' || v[0] == '\'') && v[|v| - 1] == v[0] ==> r == v[1..|v| - 1]
    ensures |v| == 1 && (v[0] == '"' || v[0] == '\'') ==> r == ""
    ensures (|v| == 0 || (v[0] != '"' && v[0] != '\'') || v[|v| - 1] != v[0]) ==> r == v
  {
    if |v| >= 1 && ((v[0] == '"' && v[|v| - 1] == '"') || (v[0] == '\'' && v[|v| - 1] == '\'')) then
      if |v| >= 2 then v[1..|v| - 1] else ""
    else v
  }

  /** The entry one line contributes: none for a blank line, a comment or a line without `=`;
      otherwise the trimmed text before the first `=` and the trimmed, unquoted text after it. */
  function LineEntry(line: string): (r: Option<(string, string)>)
    ensures r.None? <==> (Trim(line) == "" || Trim(line)[0] == '#' || '=' !in Trim(line))
  {
    var t := Trim(line);
    if t == "" || t[0] == '#' then None
    else match IndexOf(t, '=')
      case None => None
      case Some(idx) => Some((Trim(t[..idx]), Unquote(Trim(t[idx + 1..]))))
  }

  /** The key ends at the FIRST `=`; later ones belong to the value. */
  lemma LineEntryAtFirstEquals(line: string, i: nat)
    requires var t := Trim(line); i < |t| && t[i] == '=' && '=' !in t[..i] && t[0] != '#'
    ensures var t := Trim(line); LineEntry(line) == Some((Trim(t[..i]), Unquote(Trim(t[i + 1..]))))
  {
    IndexOfAt(Trim(line), '=', i);
  }

  /** The entry each line contributes, line by line. */
  function Entries(lines: seq<string>): (r: seq<Option<(string, string)>>)
    ensures |r| == |lines| && forall i :: 0 <= i < |lines| ==> r[i] == LineEntry(lines[i])
  {
    seq(|lines|, i requires 0 <= i < |lines| => LineEntry(lines[i]))
  }

  /** The loop's assignments `result[key] = val`, one entry after another. */
  function Assign(es: seq<Option<(string, string)>>): map<string, string>
    decreases |es|
  {
    if es == [] then map[]
    else
      var m := Assign(es[..|es| - 1]);
      match es[|es| - 1]
      case None => m
      case Some((k, v)) => m[k := v]
  }

  /** The map built by the loop over `lines`: its keys are those some line defines, and each
      key's value is the one the last line defining it gives. */
  function ParseLines(lines: seq<string>): (r: map<string, string>)
    ensures forall key :: key in r <==> DefinedIn(lines, key)
    ensures forall key, i :: LastDefines(Entries(lines), i, key) ==> key in r && r[key] == LineEntry(lines[i]).value.1
  {
    var r := Assign(Entries(lines));
    assert forall key ::
      && (key in r <==> DefinedIn(lines, key))
      && (forall i :: LastDefines(Entries(lines), i, key) ==> key in r && r[key] == LineEntry(lines[i]).value.1)
    by {
      forall key
        ensures key in r <==> DefinedIn(lines, key)
        ensures forall i :: LastDefines(Entries(lines), i, key) ==> key in r && r[key] == LineEntry(lines[i]).value.1
      {
        AssignLastWins(Entries(lines), key);
      }
    }
    r
  }

  /** `parseDotEnv`: the keys are those some line of the file defines, lines split at `\n`
      with one trailing `\r` dropped. */
  function ParseDotEnv(content: string): (r: map<string, string>)
    ensures forall key :: key in r <==> DefinedIn(SplitLines(content), key)
  {
    ParseLines(SplitLines(content))
  }

  /** Some line of `lines` defines `key`. */
  predicate DefinedIn(lines: seq<string>, key: string) {
    exists i :: 0 <= i < |lines| && Defines(Entries(lines), i, key)
  }

  /** Entry `i` is the last to define `key`. */
  predicate LastDefines(es: seq<Option<(string, string)>>, i: int, key: string) {
    Defines(es, i, key) && forall j :: i < j < |es| ==> !Defines(es, j, key)
  }

  /** Entry `i` defines `key`. */
  predicate Defines(es: seq<Option<(string, string)>>, i: int, key: string) {
    0 <= i < |es| && es[i].Some? && es[i].value.0 == key
  }

  /** One more entry: its binding, if any, is assigned over the map so far. */
  lemma AssignSnoc(es: seq<Option<(string, string)>>, e: Option<(string, string)>)
    ensures Assign(es + [e]) == match e case None => Assign(es) case Some((k, v)) => Assign(es)[k := v]
  {
    assert (es + [e])[..|es|] == es;
  }

  /** The key set is the set of keys some entry defines, and each key's value is the one the
      LAST entry defining it gives. */
  lemma {:induction false} AssignLastWins(es: seq<Option<(string, string)>>, key: string)
    ensures key in Assign(es) <==> exists i :: Defines(es, i, key)
    ensures forall i :: LastDefines(es, i, key) ==> key in Assign(es) && Assign(es)[key] == es[i].value.1
    decreases |es|
  {
    if es != [] {
      var n := |es| - 1;
      var init := es[..n];
      assert es == init + [es[n]];
      AssignSnoc(init, es[n]);
      AssignLastWins(init, key);
      assert forall i :: 0 <= i < n ==> (Defines(init, i, key) <==> Defines(es, i, key));
      if Defines(es, n, key) {
        assert Assign(es) == Assign(init)[key := es[n].value.1];
      } else {
        assert key in Assign(es) <==> key in Assign(init);
        assert key in Assign(es) ==> Assign(es)[key] == Assign(init)[key];
        forall i | LastDefines(es, i, key)
          ensures key in Assign(es) && Assign(es)[key] == es[i].value.1
        {
          assert i < n;
          assert Defines(init, i, key);
          assert forall j :: i < j < n ==> !Defines(init, j, key);
        }
      }
    }
  }

  /** The entries of one more line. */
  lemma EntriesSnoc(lines: seq<string>, line: string)
    ensures Entries(lines + [line]) == Entries(lines) + [LineEntry(line)]
  {
  }

  /** Hence for lines: a later line with the same key overrides an earlier one. */
  lemma LaterLineWins(lines: seq<string>, line: string, k: string, v: string)
    requires LineEntry(line) == Some((k, v))
    ensures ParseLines(lines + [line]) == ParseLines(lines)[k := v]
  {
    EntriesSnoc(lines, line);
    AssignSnoc(Entries(lines), LineEntry(line));
  }

  /** A line that defines nothing leaves the map as it was. */
  lemma IgnoredLineChangesNothing(lines: seq<string>, line: string)
    requires LineEntry(line).None?
    ensures ParseLines(lines + [line]) == ParseLines(lines)
  {
    EntriesSnoc(lines, line);
    AssignSnoc(Entries(lines), LineEntry(line));
  }

  /** Lines with the same trimmed text contribute the same entries. */
  lemma ParseLinesByTrim(a: seq<string>, b: seq<string>)
    requires |a| == |b| && forall i :: 0 <= i < |a| ==> Trim(a[i]) == Trim(b[i])
    ensures ParseLines(a) == ParseLines(b)
  {
    assert Entries(a) == Entries(b);
  }

  /** The first line of each split trims alike. */
  lemma FirstLinesTrimAlike(s: string, k: nat)
    requires k < |s|
    ensures Trim(if k > 0 && s[k - 1] == '\r' then s[..k - 1] else s[..k]) == Trim(s[..k])
  {
    if k > 0 && s[k - 1] == '\r' {
      assert s[..k] == s[..k - 1] + ['\r'];
      TrimDropsTrailingSpace(s[..k - 1], '\r');
    }
  }

  /** The two splits differ only in a trailing carriage return per line. */
  lemma {:induction false} SplitsAgreeUpToCarriageReturn(s: string)
    ensures |SplitLines(s)| == |SplitOnNewline(s)|
    ensures forall i :: 0 <= i < |SplitLines(s)| ==> Trim(SplitLines(s)[i]) == Trim(SplitOnNewline(s)[i])
    decreases |s|
  {
    match IndexOf(s, '\n')
    case None =>
    case Some(k) =>
      var rest := s[k + 1..];
      SplitsAgreeUpToCarriageReturn(rest);
      FirstLinesTrimAlike(s, k);
      var a, b := SplitLines(s), SplitOnNewline(s);
      assert a[1..] == SplitLines(rest);
      assert b[1..] == SplitOnNewline(rest);
      forall i | 0 <= i < |a| ensures Trim(a[i]) == Trim(b[i]) {
        if i > 0 {
          assert a[i] == SplitLines(rest)[i - 1];
          assert b[i] == SplitOnNewline(rest)[i - 1];
        }
      }
  }

  /** The lines glued back together with `\n` between them. */
  function Join(lines: seq<string>): string
    decreases |lines|
  {
    if |lines| == 0 then "" else if |lines| == 1 then lines[0] else lines[0] + "\n" + Join(lines[1..])
  }

  /** A first line free of breaks is split off at the break that follows it. */
  lemma SplitOnNewlineCons(a: string, b: string)
    requires '\n' !in a
    ensures SplitOnNewline(a + "\n" + b) == [a] + SplitOnNewline(b)
  {
    var s := a + "\n" + b;
    assert s[..|a|] == a;
    IndexOfAt(s, '\n', |a|);
    assert s[|a| + 1..] == b;
  }

  /** Splitting loses nothing: joining the lines gives the text back. */
  lemma {:induction false} JoinOfSplit(s: string)
    ensures Join(SplitOnNewline(s)) == s
    decreases |s|
  {
    match IndexOf(s, '\n')
    case None =>
    case Some(k) =>
      JoinOfSplit(s[k + 1..]);
      assert SplitOnNewline(s) == [s[..k]] + SplitOnNewline(s[k + 1..]);
      assert s == s[..k] + "\n" + s[k + 1..];
  }

  /** Lines free of breaks come back from the split of their join. */
  lemma {:induction false} SplitOfJoin(lines: seq<string>)
    requires |lines| >= 1 && forall i :: 0 <= i < |lines| ==> '\n' !in lines[i]
    ensures SplitOnNewline(Join(lines)) == lines
    decreases |lines|
  {
    if |lines| == 1 {
      assert SplitOnNewline(lines[0]) == [lines[0]];
    } else {
      SplitOfJoin(lines[1..]);
      SplitOnNewlineCons(lines[0], Join(lines[1..]));
      assert lines == [lines[0]] + lines[1..];
    }
  }

  /** `\r\n` and `\n` end lines alike: the result is that of splitting at `\n` alone. */
  lemma CarriageReturnsIgnored(content: string)
    ensures ParseDotEnv(content) == ParseLines(SplitOnNewline(content))
  {
    SplitsAgreeUpToCarriageReturn(content);
    ParseLinesByTrim(SplitLines(content), SplitOnNewline(content));
  }

  /** A file written as the given lines reads as those lines. */
  lemma ParseJoinedLines(lines: seq<string>)
    requires |lines| >= 1 && forall i :: 0 <= i < |lines| ==> '\n' !in lines[i]
    ensures ParseDotEnv(Join(lines)) == ParseLines(lines)
  {
    CarriageReturnsIgnored(Join(lines));
    SplitOfJoin(lines);
  }

  /** A text without line breaks is one line. */
  lemma SingleLine(line: string)
    requires '\n' !in line
    ensures ParseDotEnv(line) == match LineEntry(line) case None => map[] case Some((k, v)) => map[k := v]
  {
    assert SplitLines(line) == [line];
    EntriesSnoc([], line);
    assert [] + [line] == [line];
    AssignSnoc([], LineEntry(line));
    assert Entries([]) == [];
  }

  /** `k=w` with a key free of `=` and surrounding blanks splits at the separator. */
  lemma AssignmentLine(k: string, w: string)
    requires '=' !in k
    requires |k| > 0 ==> !IsSpace(k[0]) && !IsSpace(k[|k| - 1]) && k[0] != '#'
    requires |w| > 0 ==> !IsSpace(w[0]) && !IsSpace(w[|w| - 1])
    ensures LineEntry(k + ['='] + w) == Some((k, Unquote(w)))
  {
    var line := k + ['='] + w;
    assert line[0] == (if |k| > 0 then k[0] else '=');
    assert line[|line| - 1] == (if |w| > 0 then w[|w| - 1] else '=');
    TrimOfTrimmed(line);
    TrimOfTrimmed(k);
    TrimOfTrimmed(w);
    assert line[..|k|] == k;
    assert line[|k| + 1..] == w;
    LineEntryAtFirstEquals(line, |k|);
  }

  /** No line break in `k=w` when there is none in `k` or `w`. */
  lemma NoBreakInAssignment(k: string, w: string)
    requires '\n' !in k && '\n' !in w
    ensures '\n' !in k + ['='] + w
  {
    var line := k + ['='] + w;
    forall i | 0 <= i < |line| ensures line[i] != '\n' {
      if i < |k| { assert line[i] == k[i]; } else if i > |k| { assert line[i] == w[i - |k| - 1]; }
    }
  }

  /** A line `k=v` whose key and value carry no surrounding blanks, line breaks or `=` in the
      key, and whose value is not quoted, parses to exactly that binding. */
  lemma KeyValueRoundTrip(k: string, v: string)
    requires '=' !in k && '\n' !in k && '\n' !in v
    requires |k| > 0 ==> !IsSpace(k[0]) && !IsSpace(k[|k| - 1]) && k[0] != '#'
    requires |v| > 0 ==> !IsSpace(v[0]) && !IsSpace(v[|v| - 1])
    requires |v| == 0 || (v[0] != '"' && v[0] != '\'') || v[|v| - 1] != v[0]
    ensures ParseDotEnv(k + ['='] + v) == map[k := v]
  {
    NoBreakInAssignment(k, v);
    AssignmentLine(k, v);
    SingleLine(k + ['='] + v);
  }

  /** A quoted value comes back without its quotes and with its inner blanks intact. */
  lemma QuotedValueRoundTrip(k: string, q: char, v: string)
    requires q == '"' || q == '\''
    requires '=' !in k && '\n' !in k && '\n' !in v
    requires |k| > 0 ==> !IsSpace(k[0]) && !IsSpace(k[|k| - 1]) && k[0] != '#'
    ensures ParseDotEnv(k + ['='] + ([q] + v + [q])) == map[k := v]
  {
    var w := [q] + v + [q];
    assert '\n' !in w by {
      forall i | 0 <= i < |w| ensures w[i] != '\n' {
        if 0 < i < |w| - 1 { assert w[i] == v[i - 1]; }
      }
    }
    NoBreakInAssignment(k, w);
    assert w[1..|w| - 1] == v;
    AssignmentLine(k, w);
    SingleLine(k + ['='] + w);
  }
}
