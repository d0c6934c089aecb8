/**
 * server.properties as the launchers read and write it.
 *
 * Reading (space-launcher.py `configure_server`): the file is read in Python text mode,
 * line by line; a line is an entry when it contains `=` and its stripped form does not
 * start with `#`; the stripped line is split at its first `=`; a later line for the same
 * key overwrites an earlier one. Merging keeps the launcher's own key list and order and
 * takes a key's value from the existing file when the file has that key. Writing emits
 * one `key=value\n` line per entry, in order.
 */
module Properties {
  import opened Wrappers
  import opened Text

  /** One item of an insertion-ordered Python dict of settings. */
  datatype Entry = Entry(key: string, value: string)

  // ---------------------------------------------------------------------------------
  // Lines of a text file
  // ---------------------------------------------------------------------------------

  /** Python text mode on reading: `\r\n` and a lone `\r` both become `\n`. */
  function UniversalNewlines(s: string): (r: string)
    ensures '\r' !in r
  {
    if s == [] then []
    else if s[0] == '\r' then
      if |s| > 1 && s[1] == '\n' then "\n" + UniversalNewlines(s[2..]) else "\n" + UniversalNewlines(s[1..])
    else [s[0]] + UniversalNewlines(s[1..])
  }

  /** A text without `\r` reads back unchanged. */
  lemma {:induction false} UniversalNewlinesIdentity(s: string)
    requires '\r' !in s
    ensures UniversalNewlines(s) == s
  {
    if s != [] {
      assert '\r' !in s[1..];
      UniversalNewlinesIdentity(s[1..]);
    }
  }

  /** A line as `for line in f` yields it: non-empty, a `\n` at most at its end. */
  predicate IsLine(l: string) {
    l != [] && forall i :: 0 <= i < |l| - 1 ==> l[i] != '\n'
  }

  /** Length of the first line of a non-empty text, its terminating `\n` included. */
  function FirstLineLength(s: string): (n: nat)
    requires s != []
    ensures 0 < n <= |s| && IsLine(s[..n])
    ensures n < |s| ==> s[n - 1] == '\n'
  {
    if s[0] == '\n' || |s| == 1 then 1 else 1 + FirstLineLength(s[1..])
  }

  /** The first line ends at the first `\n`. */
  lemma {:induction false} FirstLineLengthAt(s: string, k: nat)
    requires 0 < k <= |s| && s[k - 1] == '\n' && IsLine(s[..k])
    ensures FirstLineLength(s) == k
  {
    if s[0] != '\n' && |s| != 1 {
      assert s[1..][k - 2] == s[k - 1];
      assert s[1..][..k - 1] == s[1..k];
      FirstLineLengthAt(s[1..], k - 1);
    }
  }

  /** The lines `for line in f` yields, each with its `\n` (the last one possibly without). */
  function SplitLines(s: string): (r: seq<string>)
    decreases |s|
  {
    if s == [] then []
    else
      var n := FirstLineLength(s);
      [s[..n]] + SplitLines(s[n..])
  }

  /**
   * Every piece is a non-empty line, every piece but the last ends in `\n`, and a text
   * without `\r` gives lines without `\r`.
   */
  lemma {:induction false} SplitLinesShape(s: string)
    ensures forall j :: 0 <= j < |SplitLines(s)| ==> SplitLines(s)[j] != [] && IsLine(SplitLines(s)[j])
    ensures forall j :: 0 <= j < |SplitLines(s)| - 1 ==> SplitLines(s)[j][|SplitLines(s)[j]| - 1] == '\n'
    ensures '\r' !in s ==> forall j :: 0 <= j < |SplitLines(s)| ==> '\r' !in SplitLines(s)[j]
    decreases |s|
  {
    if s != [] {
      var n := FirstLineLength(s);
      SplitLinesShape(s[n..]);
      assert SplitLines(s) == [s[..n]] + SplitLines(s[n..]);
      assert SplitLines(s[n..]) != [] ==> n < |s|;
    }
  }

  function Concat(ls: seq<string>): string {
    if ls == [] then [] else ls[0] + Concat(ls[1..])
  }

  /** Splitting into lines loses nothing: the lines put back together are the text. */
  lemma {:induction false} SplitLinesConcat(s: string)
    ensures Concat(SplitLines(s)) == s
    decreases |s|
  {
    if s != [] {
      var n := FirstLineLength(s);
      SplitLinesConcat(s[n..]);
      assert ([s[..n]] + SplitLines(s[n..]))[1..] == SplitLines(s[n..]);
    }
  }

  /** A first line ended by `\n` is the first line whatever follows it. */
  lemma SplitLinesHead(a: string, b: string)
    requires a != [] && a[FirstLineLength(a) - 1] == '\n'
    ensures var n := FirstLineLength(a);
      SplitLines(a + b) == [a[..n]] + SplitLines(a[n..] + b)
  {
    var n := FirstLineLength(a);
    assert (a + b)[..n] == a[..n];
    FirstLineLengthAt(a + b, n);
    assert (a + b)[n..] == a[n..] + b;
  }

  /** Text that ends with a complete line splits independently of what follows it. */
  lemma {:induction false} SplitLinesAppend(a: string, b: string)
    requires a == [] || a[|a| - 1] == '\n'
    ensures SplitLines(a + b) == SplitLines(a) + SplitLines(b)
    decreases |a|
  {
    if a != [] {
      var n := FirstLineLength(a);
      assert a[n - 1] == '\n';
      SplitLinesHead(a, b);
      var rest := a[n..];
      assert rest == [] || rest[|rest| - 1] == '\n' by {
        if rest != [] { assert rest[|rest| - 1] == a[|a| - 1]; }
      }
      SplitLinesAppend(rest, b);
      assert SplitLines(a) == [a[..n]] + SplitLines(rest);
      assert [a[..n]] + (SplitLines(rest) + SplitLines(b)) == ([a[..n]] + SplitLines(rest)) + SplitLines(b);
    } else {
      assert a + b == b;
    }
  }

  // ---------------------------------------------------------------------------------
  // Reading
  // ---------------------------------------------------------------------------------

  function FirstIndexOf(s: string, c: char): (i: nat)
    requires c in s
    ensures i < |s| && s[i] == c && c !in s[..i]
  {
    if s[0] == c then 0 else 1 + FirstIndexOf(s[1..], c)
  }

  /** `t.split('=', 1)` for a text that contains `=`: the text before and after the first `=`. */
  function SplitAtEquals(t: string): (e: Entry)
    requires '=' in t
  {
    var i := FirstIndexOf(t, '=');
    Entry(t[..i], t[i + 1..])
  }

  /** Splitting at the first `=` undoes joining with `=` a key that has no `=`. */
  lemma SplitAtEqualsJoin(k: string, v: string)
    requires '=' !in k
    ensures '=' in k + "=" + v && SplitAtEquals(k + "=" + v) == Entry(k, v)
  {
    var t := k + "=" + v;
    assert t[|k|] == '=';
    var i := FirstIndexOf(t, '=');
    assert t[..i] == k;
    assert t[i + 1..] == v;
  }

  /** A split text is the key, `=`, and the value, and the key has no `=`. */
  lemma SplitAtEqualsParts(t: string)
    requires '=' in t
    ensures '=' !in SplitAtEquals(t).key
    ensures t == SplitAtEquals(t).key + "=" + SplitAtEquals(t).value
  {
    var i := FirstIndexOf(t, '=');
    assert t == t[..i] + "=" + t[i + 1..];
  }

  /**
   * One iteration of the read loop: `if '=' in line and not line.strip().startswith('#')`,
   * then `key, value = line.strip().split('=', 1)`.
   */
  function ParseLine(line: string): (p: Option<Entry>)
    ensures p.Some? <==> '=' in line && !StartsWith(Strip(line), "#")
    ensures p.Some? ==> '=' !in p.value.key && p.value.key + "=" + p.value.value == Strip(line)
  {
    if '=' in line && !StartsWith(Strip(line), "#") then
      StripKeeps(line, '=');
      SplitAtEqualsParts(Strip(line));
      Some(SplitAtEquals(Strip(line)))
    else None
  }

  /** What the read loop makes of each line, in order. */
  function ParsedLines(lines: seq<string>): (ps: seq<Option<Entry>>)
    ensures |ps| == |lines| && forall i :: 0 <= i < |lines| ==> ps[i] == ParseLine(lines[i])
  {
    seq(|lines|, i requires 0 <= i < |lines| => ParseLine(lines[i]))
  }

  /** The dict built by storing the entries found in order, a later one overwriting an earlier one. */
  function Collect(ps: seq<Option<Entry>>): map<string, string>
  {
    if ps == [] then map[]
    else
      var m := Collect(ps[..|ps| - 1]);
      match ps[|ps| - 1]
      case None => m
      case Some(e) => m[e.key := e.value]
  }

  /** `p` is an entry for key `k`. */
  predicate Defines(p: Option<Entry>, k: string) {
    p.Some? && p.value.key == k
  }

  /**
   * A key is in the dict exactly when some entry has it, and its value is the value of
   * the last entry that has it.
   */
  lemma {:induction false} CollectLastWins(ps: seq<Option<Entry>>, k: string)
    ensures k in Collect(ps) <==> exists i :: 0 <= i < |ps| && Defines(ps[i], k)
    ensures k in Collect(ps) ==>
      exists i :: 0 <= i < |ps| && Defines(ps[i], k) && ps[i].value.value == Collect(ps)[k]
        && forall j :: i < j < |ps| ==> !Defines(ps[j], k)
  {
    if ps != [] {
      var n := |ps| - 1;
      var init := ps[..n];
      CollectLastWins(init, k);
      if !Defines(ps[n], k) {
        if k in Collect(ps) {
          var i :| 0 <= i < n && Defines(init[i], k) && init[i].value.value == Collect(init)[k]
            && forall j :: i < j < n ==> !Defines(init[j], k);
          assert Defines(ps[i], k);
          forall j | i < j < |ps| ensures !Defines(ps[j], k) {
            if j < n { assert ps[j] == init[j]; }
          }
        } else {
          forall i | 0 <= i < |ps| ensures !Defines(ps[i], k) {
            if i < n { assert ps[i] == init[i]; }
          }
        }
      }
    }
  }

  /** What reading an existing server.properties with content `text` yields. */
  function ReadProperties(text: string): map<string, string>
  {
    Collect(ParsedLines(SplitLines(UniversalNewlines(text))))
  }

  /** Storing one more entry found. */
  lemma CollectStep(ps: seq<Option<Entry>>, i: nat)
    requires i < |ps|
    ensures Collect(ps[..i + 1]) ==
      if ps[i].Some? then Collect(ps[..i])[ps[i].value.key := ps[i].value.value] else Collect(ps[..i])
  {
    assert ps[..i + 1][..i] == ps[..i];
  }

  /** The read loop: builds `existing_config` line by line. */
  method ReadExisting(text: string) returns (existing: map<string, string>)
    ensures existing == ReadProperties(text)
  {
    var lines := SplitLines(UniversalNewlines(text));
    ghost var ps := ParsedLines(lines);
    existing := map[];
    for i := 0 to |lines|
      invariant existing == Collect(ps[..i])
    {
      var line := lines[i];
      CollectStep(ps, i);
      assert ps[i] == ParseLine(line);
      if '=' in line && !StartsWith(Strip(line), "#") {
        StripKeeps(line, '=');
        var e := SplitAtEquals(Strip(line));
        existing := existing[e.key := e.value];
      }
    }
    assert ps[..|lines|] == ps;
  }

  // ---------------------------------------------------------------------------------
  // Merging and writing
  // ---------------------------------------------------------------------------------

  /** Python dict keys are unique. */
  predicate DistinctKeys(es: seq<Entry>) {
    forall i, j :: 0 <= i < j < |es| ==> es[i].key != es[j].key
  }

  /** The items from index `lo` up to `hi` have keys that no later item repeats. */
  predicate KeysUniqueFrom(es: seq<Entry>, lo: nat, hi: nat) {
    forall i, j :: lo <= i < hi && i < j < |es| ==> es[i].key != es[j].key
  }

  function KeysOf(es: seq<Entry>): (ks: seq<string>)
    ensures |ks| == |es| && forall i :: 0 <= i < |es| ==> ks[i] == es[i].key
  {
    seq(|es|, i requires 0 <= i < |es| => es[i].key)
  }

  /** `server_config` after `for key in list(server_config.keys()): if key in existing_config: ...`. */
  function Merged(defaults: seq<Entry>, existing: map<string, string>): seq<Entry>
  {
    seq(|defaults|, i requires 0 <= i < |defaults| =>
      var k := defaults[i].key;
      Entry(k, if k in existing then existing[k] else defaults[i].value))
  }

  /**
   * Merging keeps the default keys in their order, takes the existing value for each
   * default key the file has, and the default value otherwise.
   */
  lemma MergeKeepsExisting(defaults: seq<Entry>, existing: map<string, string>)
    ensures KeysOf(Merged(defaults, existing)) == KeysOf(defaults)
    ensures forall i :: 0 <= i < |defaults| && defaults[i].key in existing ==>
      Merged(defaults, existing)[i].value == existing[defaults[i].key]
    ensures forall i :: 0 <= i < |defaults| && defaults[i].key !in existing ==>
      Merged(defaults, existing)[i].value == defaults[i].value
  {
  }

  /** The merge loop: overwrites, in place, the default entries the existing file also has. */
  method MergeExisting(defaults: seq<Entry>, existing: map<string, string>) returns (config: seq<Entry>)
    ensures config == Merged(defaults, existing)
  {
    config := defaults;
    for i := 0 to |defaults|
      invariant |config| == |defaults|
      invariant forall j :: 0 <= j < i ==> config[j] == Merged(defaults, existing)[j]
      invariant forall j :: i <= j < |defaults| ==> config[j] == defaults[j]
    {
      var key := config[i].key;
      if key in existing {
        config := config[i := Entry(key, existing[key])];
      }
    }
  }

  /** `f"{key}={value}\n"`. */
  function Line(e: Entry): string {
    e.key + "=" + e.value + "\n"
  }

  /** The file content the write loop produces. */
  function Serialize(es: seq<Entry>): string
  {
    if es == [] then "" else Serialize(es[..|es| - 1]) + Line(es[|es| - 1])
  }

  function Lines(es: seq<Entry>): (ls: seq<string>)
    ensures |ls| == |es| && forall i :: 0 <= i < |es| ==> ls[i] == Line(es[i])
  {
    seq(|es|, i requires 0 <= i < |es| => Line(es[i]))
  }

  /** The write loop: one `key=value\n` line per entry, in order. */
  method WriteProperties(es: seq<Entry>) returns (text: string)
    ensures text == Serialize(es)
  {
    text := "";
    for i := 0 to |es|
      invariant text == Serialize(es[..i])
    {
      assert es[..i + 1][..i] == es[..i];
      text := text + Line(es[i]);
    }
    assert es[..|es|] == es;
  }

  /** Every item of `es`, as an entry found. */
  function Found(es: seq<Entry>): (ps: seq<Option<Entry>>)
    ensures |ps| == |es| && forall i :: 0 <= i < |es| ==> ps[i] == Some(es[i])
  {
    seq(|es|, i requires 0 <= i < |es| => Some(es[i]))
  }

  /** The dict a sequence of items builds, a later item overwriting an earlier one. */
  function EntriesMap(es: seq<Entry>): map<string, string>
  {
    Collect(Found(es))
  }

  /** The dict has exactly the keys of the items. */
  lemma EntriesMapKeys(es: seq<Entry>, k: string)
    ensures k in EntriesMap(es) <==> k in KeysOf(es)
  {
    CollectLastWins(Found(es), k);
    if k in KeysOf(es) {
      var i :| 0 <= i < |es| && KeysOf(es)[i] == k;
      assert Defines(Found(es)[i], k);
    }
  }

  /** With distinct keys every item's value is kept. */
  lemma EntriesMapAt(es: seq<Entry>, i: nat)
    requires DistinctKeys(es) && i < |es|
    ensures es[i].key in EntriesMap(es) && EntriesMap(es)[es[i].key] == es[i].value
  {
    var k := es[i].key;
    CollectLastWins(Found(es), k);
    assert Defines(Found(es)[i], k);
  }

  /**
   * An entry whose line reads back as itself: no `=` in the key, no line break anywhere,
   * the key not starting with whitespace or `#`, the value not ending with whitespace.
   */
  predicate WellFormedEntry(e: Entry) {
    && '=' !in e.key
    && '\n' !in e.key && '\r' !in e.key && '\n' !in e.value && '\r' !in e.value
    && (e.key == [] || (!IsSpace(e.key[0]) && e.key[0] != '#'))
    && (e.value == [] || !IsSpace(e.value[|e.value| - 1]))
  }

  predicate AllWellFormed(es: seq<Entry>) {
    forall i :: 0 <= i < |es| ==> WellFormedEntry(es[i])
  }

  /** Printable ASCII other than `=` and `#`: the characters of the launchers' settings. */
  predicate PlainChar(c: char) {
    ' ' <= c <= '~' && c != '=' && c != '#'
  }

  predicate PlainText(s: string) {
    forall i :: 0 <= i < |s| ==> PlainChar(s[i])
  }

  lemma PlainTextAppend(a: string, b: string)
    requires PlainText(a) && PlainText(b)
    ensures PlainText(a + b)
  {
    forall i | 0 <= i < |a + b| ensures PlainChar((a + b)[i]) {
      if i >= |a| {
        assert (a + b)[i] == b[i - |a|];
      }
    }
  }

  /**
   * An entry made of plain characters, whose key does not start and whose value does not
   * end with a space.
   */
  predicate PlainEntry(e: Entry) {
    && PlainText(e.key) && PlainText(e.value)
    && (e.key == [] || e.key[0] != ' ')
    && (e.value == [] || e.value[|e.value| - 1] != ' ')
  }

  /** A plain entry is well formed. */
  lemma PlainWellFormed(e: Entry)
    requires PlainEntry(e)
    ensures WellFormedEntry(e)
  {
  }

  /** Text without a line break, terminated by one, is a single line. */
  lemma Terminated(s: string)
    requires '\n' !in s
    ensures IsLine(s + "\n")
  {
    forall i | 0 <= i < |s| ensures (s + "\n")[i] != '\n' {
      assert (s + "\n")[i] == s[i];
    }
  }

  /** A written line is a single line whose stripped form is `key=value`. */
  lemma StripLine(e: Entry)
    requires WellFormedEntry(e)
    ensures IsLine(Line(e)) && Strip(Line(e)) == e.key + "=" + e.value
  {
    var s := e.key + "=" + e.value;
    assert Line(e) == s + "\n";
    assert '\n' !in s;
    Terminated(s);
    StripDropsTrailingSpace(s, '\n');
    assert !IsSpace(s[0]) by {
      if e.key != [] { assert s[0] == e.key[0]; } else { assert s[0] == '='; }
    }
    assert !IsSpace(s[|s| - 1]) by {
      if e.value != [] { assert s[|s| - 1] == e.value[|e.value| - 1]; } else { assert s[|s| - 1] == '='; }
    }
    StripFixed(s);
  }

  /** A written line reads back as the entry that produced it. */
  lemma LineRoundTrip(e: Entry)
    requires WellFormedEntry(e)
    ensures IsLine(Line(e)) && ParseLine(Line(e)) == Some(e)
  {
    var s := e.key + "=" + e.value;
    var l := Line(e);
    StripLine(e);
    SplitAtEqualsJoin(e.key, e.value);
    assert l == s + "\n";
    assert '=' in l;
    NotComment(e);
    assert ParseLine(l) == Some(SplitAtEquals(s));
  }

  /** A written line is not a comment. */
  lemma NotComment(e: Entry)
    requires WellFormedEntry(e)
    ensures !StartsWith(e.key + "=" + e.value, "#")
  {
    var s := e.key + "=" + e.value;
    if e.key != [] { assert s[0] == e.key[0]; } else { assert s[0] == '='; }
    assert s[..1][0] == s[0] != "#"[0];
  }

  /** A single line ended by `\n` splits into itself. */
  lemma SplitOneLine(l: string)
    requires IsLine(l) && l[|l| - 1] == '\n'
    ensures SplitLines(l) == [l]
  {
    FirstLineLengthAt(l, |l|);
    assert l[..|l|] == l;
    assert l[|l|..] == [];
  }

  /** A written line is a single line ended by `\n`. */
  lemma LineShape(e: Entry)
    requires WellFormedEntry(e)
    ensures IsLine(Line(e)) && Line(e)[|Line(e)| - 1] == '\n'
  {
    var s := e.key + "=" + e.value;
    assert Line(e) == s + "\n";
    Terminated(s);
  }

  /** Written text is empty or ends with `\n`. */
  lemma SerializeEnds(es: seq<Entry>)
    ensures Serialize(es) == [] || Serialize(es)[|Serialize(es)| - 1] == '\n'
  {
    if es != [] {
      var e := es[|es| - 1];
      assert Line(e) == (e.key + "=" + e.value) + "\n";
    }
  }

  /** The lines of one more entry are the earlier lines and its own. */
  lemma LinesSnoc(es: seq<Entry>)
    requires es != []
    ensures Lines(es) == Lines(es[..|es| - 1]) + [Line(es[|es| - 1])]
  {
  }

  lemma {:induction false} SplitSerialize(es: seq<Entry>)
    requires AllWellFormed(es)
    ensures SplitLines(Serialize(es)) == Lines(es)
  {
    if es != [] {
      var init := es[..|es| - 1];
      var e := es[|es| - 1];
      assert AllWellFormed(init) && WellFormedEntry(e);
      SplitSerialize(init);
      LineShape(e);
      SerializeEnds(init);
      SplitLinesAppend(Serialize(init), Line(e));
      SplitOneLine(Line(e));
      LinesSnoc(es);
    }
  }

  lemma {:induction false} SerializeNoCR(es: seq<Entry>)
    requires AllWellFormed(es)
    ensures '\r' !in Serialize(es)
  {
    if es != [] {
      SerializeNoCR(es[..|es| - 1]);
    }
  }

  /** The written lines parse as the written entries. */
  lemma ParsedLinesOfLines(es: seq<Entry>)
    requires AllWellFormed(es)
    ensures ParsedLines(Lines(es)) == Found(es)
  {
    forall i | 0 <= i < |es| ensures ParsedLines(Lines(es))[i] == Found(es)[i] {
      LineRoundTrip(es[i]);
    }
  }

  /** Round trip: reading back what the write loop produced gives the written dict. */
  lemma RoundTrip(es: seq<Entry>)
    requires AllWellFormed(es)
    ensures ReadProperties(Serialize(es)) == EntriesMap(es)
  {
    SerializeNoCR(es);
    UniversalNewlinesIdentity(Serialize(es));
    SplitSerialize(es);
    ParsedLinesOfLines(es);
  }

  /** Stripping a line without `\r` leaves neither `\n` nor `\r`. */
  lemma StripLineNoBreak(line: string)
    requires IsLine(line) && '\r' !in line
    ensures '\n' !in Strip(line) && '\r' !in Strip(line)
  {
    var body := if line[|line| - 1] == '\n' then line[..|line| - 1] else line;
    if line[|line| - 1] == '\n' {
      assert line == body + ['\n'];
      StripDropsTrailingSpace(body, '\n');
    }
    assert '\n' !in body;
    assert '\r' !in body;
    assert Strip(line) == Strip(body);
    if '\n' in Strip(body) { StripChars(body, '\n'); }
    if '\r' in Strip(body) { StripChars(body, '\r'); }
  }

  /** An entry read from a line would be written back as a line that reads the same. */
  lemma EntryWellFormed(line: string)
    requires IsLine(line) && '\r' !in line && ParseLine(line).Some?
    ensures WellFormedEntry(ParseLine(line).value)
  {
    var e := ParseLine(line).value;
    var t := Strip(line);
    StripKeeps(line, '=');
    SplitAtEqualsParts(t);
    StripLineNoBreak(line);
    assert t == e.key + "=" + e.value;
    assert !StartsWith(t, "#");
    if e.key != [] {
      assert e.key[0] == t[0];
    }
    if e.value != [] {
      assert e.value[|e.value| - 1] == t[|t| - 1];
    }
  }

  /** Every setting read from a file is well formed. */
  lemma ReadPropertiesWellFormed(text: string, k: string)
    requires k in ReadProperties(text)
    ensures WellFormedEntry(Entry(k, ReadProperties(text)[k]))
  {
    var lines := SplitLines(UniversalNewlines(text));
    SplitLinesShape(UniversalNewlines(text));
    CollectLastWins(ParsedLines(lines), k);
    var i :| 0 <= i < |lines| && Defines(ParsedLines(lines)[i], k)
      && ParsedLines(lines)[i].value.value == ReadProperties(text)[k];
    EntryWellFormed(lines[i]);
  }

  // ---------------------------------------------------------------------------------
  // configure_server as a whole
  // ---------------------------------------------------------------------------------

  /** The existing settings: the file's, or none when there is no file. */
  function ExistingSettings(existing: Option<string>): map<string, string>
  {
    match existing
    case None => map[]
    case Some(text) => ReadProperties(text)
  }

  /** The file written by a merging `configure_server` with key list `defaults`. */
  function ConfiguredText(defaults: seq<Entry>, existing: Option<string>): string
  {
    Serialize(Merged(defaults, ExistingSettings(existing)))
  }

  lemma MergedWellFormed(defaults: seq<Entry>, existing: Option<string>)
    requires AllWellFormed(defaults)
    ensures AllWellFormed(Merged(defaults, ExistingSettings(existing)))
  {
    var m := Merged(defaults, ExistingSettings(existing));
    forall i | 0 <= i < |m| ensures WellFormedEntry(m[i]) {
      var k := defaults[i].key;
      if existing.Some? && k in ExistingSettings(existing) {
        ReadPropertiesWellFormed(existing.value, k);
      }
    }
  }

  /**
   * Reading back the written file gives exactly the default keys, each with the existing
   * value when the old file had the key and the default value otherwise; keys found only
   * in the old file are gone.
   */
  lemma ConfiguredReadBack(defaults: seq<Entry>, existing: Option<string>, k: string)
    requires DistinctKeys(defaults) && AllWellFormed(defaults)
    ensures k in ReadProperties(ConfiguredText(defaults, existing)) <==> k in KeysOf(defaults)
    ensures forall i :: 0 <= i < |defaults| && defaults[i].key == k ==>
      ReadProperties(ConfiguredText(defaults, existing))[k]
        == if k in ExistingSettings(existing) then ExistingSettings(existing)[k] else defaults[i].value
  {
    var m := Merged(defaults, ExistingSettings(existing));
    MergedWellFormed(defaults, existing);
    RoundTrip(m);
    EntriesMapKeys(m, k);
    MergeKeepsExisting(defaults, ExistingSettings(existing));
    forall i | 0 <= i < |defaults| && defaults[i].key == k
      ensures ReadProperties(ConfiguredText(defaults, existing))[k] == m[i].value
    {
      EntriesMapAt(m, i);
    }
  }

  /** The merged file defines exactly the defaults' keys, each with its existing value or its default. */
  lemma ConfiguredReadBackAll(defaults: seq<Entry>, existing: Option<string>)
    requires DistinctKeys(defaults) && AllWellFormed(defaults)
    ensures forall k :: k in ReadProperties(ConfiguredText(defaults, existing)) <==> k in KeysOf(defaults)
    ensures forall i :: 0 <= i < |defaults| ==>
      var k := defaults[i].key;
      && k in ReadProperties(ConfiguredText(defaults, existing))
      && ReadProperties(ConfiguredText(defaults, existing))[k]
        == if k in ExistingSettings(existing) then ExistingSettings(existing)[k] else defaults[i].value
  {
    forall k ensures k in ReadProperties(ConfiguredText(defaults, existing)) <==> k in KeysOf(defaults) {
      ConfiguredReadBack(defaults, existing, k);
    }
    var settings, read := ExistingSettings(existing), ReadProperties(ConfiguredText(defaults, existing));
    forall i | 0 <= i < |defaults|
      ensures defaults[i].key in read
      ensures read[defaults[i].key] == if defaults[i].key in settings then settings[defaults[i].key] else defaults[i].value
    {
      ConfiguredReadBack(defaults, existing, defaults[i].key);
    }
  }

  /** Running the merging `configure_server` again rewrites an identical file. */
  lemma ConfigureIdempotent(defaults: seq<Entry>, existing: Option<string>)
    requires DistinctKeys(defaults) && AllWellFormed(defaults)
    ensures ConfiguredText(defaults, Some(ConfiguredText(defaults, existing))) == ConfiguredText(defaults, existing)
  {
    var m := Merged(defaults, ExistingSettings(existing));
    MergedWellFormed(defaults, existing);
    RoundTrip(m);
    var again := Merged(defaults, EntriesMap(m));
    forall i | 0 <= i < |defaults| ensures again[i] == m[i] {
      EntriesMapAt(m, i);
    }
    assert again == m;
  }
}
