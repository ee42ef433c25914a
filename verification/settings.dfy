/** `loadSettings` (components/settings.cjs, copied into index.cjs): a
    settings file of `key=value` lines over two numeric defaults. Reading or
    writing the file is not modelled: the file's text, or its absence, is
    the input, and the text written on first run is part of the output. */
module Settings {
  import opened Wrappers
  import opened Text

  /** The settings object; JavaScript numbers are modelled as reals. */
  type Settings = map<string, real>

  /** `defaultSettings`, in insertion order. */
  const DefaultEntries: seq<(string, nat)> := [("fiveStarsToPull", 2), ("fiveStarsToScreenshot", 1)]

  /** The settings after assigning each entry in order. */
  function Assign(base: Settings, entries: seq<(string, nat)>): Settings
    decreases |entries|
  {
    if |entries| == 0 then base
    else Assign(base[entries[0].0 := entries[0].1 as real], entries[1..])
  }

  /** `{ ...defaultSettings }`. */
  function Defaults(): (d: Settings)
    ensures d.Keys == {"fiveStarsToPull", "fiveStarsToScreenshot"}
    ensures d["fiveStarsToPull"] == 2.0 && d["fiveStarsToScreenshot"] == 1.0
  {
    Assign(map[], DefaultEntries)
  }

  /** `${key}=${val}` for one entry. */
  function EntryLine(e: (string, nat)): string {
    e.0 + "=" + NatToString(e.1)
  }

  function EntryLines(entries: seq<(string, nat)>): (ls: seq<string>)
    ensures |ls| == |entries|
    ensures forall i :: 0 <= i < |entries| ==> ls[i] == EntryLine(entries[i])
  {
    seq(|entries|, i requires 0 <= i < |entries| => EntryLine(entries[i]))
  }

  /** `Object.entries(d).map(([key, val]) => `${key}=${val}`).join('\n')`. */
  function Serialise(entries: seq<(string, nat)>): string {
    Join(EntryLines(entries), '\n')
  }

  /** The text written when the settings file does not exist. */
  function DefaultText(): string {
    Serialise(DefaultEntries)
  }

  lemma DefaultTextIs()
    ensures DefaultText() == "fiveStarsToPull" + "=" + "2" + "\n" + "fiveStarsToScreenshot" + "=" + "1"
  {
    SmallNumbers();
    var l0 := "fiveStarsToPull" + "=" + "2";
    var l1 := "fiveStarsToScreenshot" + "=" + "1";
    var ls := EntryLines(DefaultEntries);
    assert ls[0] == l0 && ls[1] == l1;
    assert ls == [l0, l1];
    JoinTwo(l0, l1, '\n');
  }

  lemma SmallNumbers()
    ensures NatToString(2) == "2" && NatToString(1) == "1"
  {
  }

  lemma JoinTwo(a: string, b: string, sep: char)
    ensures Join([a, b], sep) == a + [sep] + b
  {
    assert [a, b][1..] == [b];
  }

  /** Drops one trailing carriage return. */
  function DropCR(s: string): string {
    if |s| > 0 && s[|s| - 1] == '\r' then s[..|s| - 1] else s
  }

  /** `text.split(/\r?\n/)`: split at each line feed and remove one carriage
      return just before it. The last piece has no line feed after it and
      keeps any carriage return it ends with. */
  function SplitLines(text: string): (ls: seq<string>)
    ensures |ls| > 0
    ensures forall i :: 0 <= i < |ls| ==> '\n' !in ls[i]
  {
    var parts := Split(text, '\n');
    seq(|parts|, i requires 0 <= i < |parts| => if i < |parts| - 1 then DropCR(parts[i]) else parts[i])
  }

  /** `.filter(Boolean)`: the non-empty lines, in order. Dropping the empty
      lines loses no assignment: every key's last valid value is the same
      before and after. */
  function NonEmptyLines(ls: seq<string>): (r: seq<string>)
    ensures |r| <= |ls|
    ensures forall l :: l in r <==> l in ls && l != ""
    ensures forall i :: 0 <= i < |r| ==> r[i] != ""
    ensures forall k :: LastValue(r, k) == LastValue(ls, k)
    decreases |ls|
  {
    if |ls| == 0 then []
    else
      var rest := NonEmptyLines(ls[1..]);
      EmptyLineAssignsNothing();
      if ls[0] != "" then
        assert ([ls[0]] + rest)[1..] == rest;
        [ls[0]] + rest
      else rest
  }

  /** An empty line names no key. */
  lemma EmptyLineAssignsNothing()
    ensures forall k :: LineValue("", k) == None
  {
    assert Split("", '=') == [""];
    assert Trim("") == "";
  }

  /** `Number(s)` on a trimmed, non-empty string, restricted to decimal
      notation: an optional sign, then digits with an optional fraction. */
  function ParseNumber(s: string): Option<real> {
    if |s| > 0 && (s[0] == '+' || s[0] == '-') then
      match ParseUnsigned(s[1..])
      case None => None
      case Some(v) => Some(if s[0] == '-' then -v else v)
    else ParseUnsigned(s)
  }

  function Pow10(n: nat): (p: nat)
    ensures p > 0
  {
    if n == 0 then 1 else 10 * Pow10(n - 1)
  }

  /** `digits`, `digits.`, `digits.digits` or `.digits`. */
  function ParseUnsigned(s: string): Option<real> {
    if '.' in s then
      var i := IndexOf(s, '.');
      var whole, frac := s[..i], s[i + 1..];
      if AllDigits(whole) && AllDigits(frac) && (|whole| > 0 || |frac| > 0) then
        Some(DigitsValue(whole) as real + DigitsValue(frac) as real / Pow10(|frac|) as real)
      else None
    else if |s| > 0 && AllDigits(s) then Some(DigitsValue(s) as real)
    else None
  }

  lemma DigitsExclude(s: string, c: char)
    requires AllDigits(s) && !IsDigit(c)
    ensures c !in s
  {
  }

  /** `String(n)` reads back as `n`. */
  lemma ParseNatString(n: nat)
    ensures ParseNumber(NatToString(n)) == Some(n as real)
  {
    DigitsExclude(NatToString(n), '.');
    NatToStringRoundTrip(n);
  }

  /** `const [key, value] = line.split('=').map(s => s.trim())`: `value` is
      `undefined` when the line holds no `=`. */
  function KeyValue(line: string): (r: (string, Option<string>))
    ensures '=' !in line ==> r == (Trim(line), None)
    ensures '=' in line ==> r.1.Some?
  {
    var parts := Split(line, '=');
    (Trim(parts[0]), if |parts| >= 2 then Some(Trim(parts[1])) else None)
  }

  /** The key is the trimmed text before the first `=`, the value the
      trimmed text up to the next `=`; anything after a second `=` is
      ignored. */
  lemma KeyValueParts(a: string, b: string, c: string)
    requires '=' !in a && '=' !in b
    ensures KeyValue(a + "=" + b) == (Trim(a), Some(Trim(b)))
    ensures KeyValue(a + "=" + b + "=" + c) == (Trim(a), Some(Trim(b)))
  {
    SplitCons(a, '=', b);
    assert a + "=" + b + "=" + c == a + ['='] + (b + "=" + c);
    SplitCons(a, '=', b + "=" + c);
    SplitCons(b, '=', c);
  }

  /** `if (key && value && !isNaN(Number(value))) settings[key] = Number(value)`. */
  function ApplyLine(s: Settings, line: string): (r: Settings)
    ensures r != s ==> var (k, v) := KeyValue(line);
      k != "" && v.Some? && v.value != "" && ParseNumber(v.value).Some?
    ensures forall k :: k in s ==> k in r
    ensures var (k, v) := KeyValue(line);
      k != "" && v.Some? && v.value != "" && ParseNumber(v.value).Some? ==>
        r.Keys == s.Keys + {k} && r[k] == ParseNumber(v.value).value
        && forall k' :: k' in s && k' != k ==> r[k'] == s[k']
  {
    var (k, v) := KeyValue(line);
    if k != "" && v.Some? && v.value != "" then
      match ParseNumber(v.value)
      case Some(n) => s[k := n]
      case None => s
    else s
  }

  /** The `for (const line of lines)` loop. */
  function ApplyLines(s: Settings, lines: seq<string>): (r: Settings)
    ensures s.Keys <= r.Keys
    decreases |lines|
  {
    if |lines| == 0 then s else ApplyLines(ApplyLine(s, lines[0]), lines[1..])
  }

  /** The settings an existing file's text yields. */
  function Parse(text: string): Settings {
    ApplyLines(Defaults(), NonEmptyLines(SplitLines(text)))
  }

  /** `loadSettings`: the settings, and the text written to a missing file. */
  function LoadSettings(file: Option<string>): (r: (Settings, Option<string>))
    ensures file.None? ==> r.1 == Some(DefaultText())
    ensures file.Some? ==> r.1.None?
    ensures file.Some? ==> r.0 == Parse(file.value)
    ensures file.None? ==> r.0 == Defaults()
  {
    match file
    case None => (Defaults(), Some(DefaultText()))
    case Some(text) => (Parse(text), None)
  }

  /** The value a valid line assigns, if it is valid and names `k`. */
  function LineValue(line: string, k: string): Option<real> {
    var (k', v) := KeyValue(line);
    if k' == k && k != "" && v.Some? && v.value != "" then ParseNumber(v.value) else None
  }

  /** The value of the last valid line naming `k`. */
  function LastValue(lines: seq<string>, k: string): Option<real>
    decreases |lines|
  {
    if |lines| == 0 then None
    else match LastValue(lines[1..], k)
      case Some(v) => Some(v)
      case None => LineValue(lines[0], k)
  }

  /** Later lines override earlier ones, and a key no valid line names keeps
      its value (a default is preserved, an unknown key stays absent). */
  lemma {:induction false} ApplyLinesLastWins(s: Settings, lines: seq<string>, k: string)
    ensures var r := ApplyLines(s, lines);
      match LastValue(lines, k)
      case Some(v) => k in r && r[k] == v
      case None => (k in r <==> k in s) && (k in s ==> r[k] == s[k])
    decreases |lines|
  {
    if |lines| > 0 {
      ApplyLinesLastWins(ApplyLine(s, lines[0]), lines[1..], k);
    }
  }

  /** Each key of an existing file's settings holds the value of the last
      valid line naming it, blank lines included or not, and otherwise its
      default; no other key appears. */
  lemma ParseLastWins(text: string, k: string)
    ensures match LastValue(SplitLines(text), k)
      case Some(v) => k in Parse(text) && Parse(text)[k] == v
      case None => (k in Parse(text) <==> k in Defaults()) && (k in Defaults() ==> Parse(text)[k] == Defaults()[k])
  {
    ApplyLinesLastWins(Defaults(), NonEmptyLines(SplitLines(text)), k);
  }

  /** No line removes a key, so both defaults are always present. */
  lemma ParseHasDefaults(text: string)
    ensures "fiveStarsToPull" in Parse(text) && "fiveStarsToScreenshot" in Parse(text)
  {
  }

  /** A key the serialiser and the parser both leave intact. */
  predicate PlainKey(k: string) {
    && k != ""
    && '=' !in k && '\n' !in k
    && !IsSpace(k[0]) && !IsSpace(k[|k| - 1])
  }

  lemma EntryLineParses(e: (string, nat))
    requires PlainKey(e.0)
    ensures KeyValue(EntryLine(e)) == (e.0, Some(NatToString(e.1)))
    ensures ParseNumber(NatToString(e.1)) == Some(e.1 as real)
  {
    var v := NatToString(e.1);
    DigitsExclude(v, '=');
    assert Join([e.0, v], '=') == EntryLine(e);
    SplitJoin([e.0, v], '=');
    TrimNoSpace(e.0);
    TrimNoSpace(v);
    ParseNatString(e.1);
  }

  lemma ApplyEntryLine(s: Settings, e: (string, nat))
    requires PlainKey(e.0)
    ensures ApplyLine(s, EntryLine(e)) == s[e.0 := e.1 as real]
  {
    EntryLineParses(e);
    var v := NatToString(e.1);
    assert KeyValue(EntryLine(e)) == (e.0, Some(v));
  }

  lemma {:induction false} ApplyEntryLines(s: Settings, entries: seq<(string, nat)>)
    requires forall i :: 0 <= i < |entries| ==> PlainKey(entries[i].0)
    ensures ApplyLines(s, EntryLines(entries)) == Assign(s, entries)
    decreases |entries|
  {
    if |entries| > 0 {
      ApplyEntryLine(s, entries[0]);
      assert EntryLines(entries)[1..] == EntryLines(entries[1..]);
      ApplyEntryLines(s[entries[0].0 := entries[0].1 as real], entries[1..]);
    }
  }

  lemma {:induction false} NonEmptyLinesId(ls: seq<string>)
    requires forall i :: 0 <= i < |ls| ==> ls[i] != ""
    ensures NonEmptyLines(ls) == ls
    decreases |ls|
  {
    if |ls| > 0 {
      NonEmptyLinesId(ls[1..]);
      assert ls == [ls[0]] + ls[1..];
    }
  }

  /** Lines without line feeds or a trailing carriage return come back
      unchanged from joining and splitting. */
  lemma SplitLinesJoin(ls: seq<string>)
    requires |ls| > 0
    requires forall i :: 0 <= i < |ls| ==> '\n' !in ls[i] && DropCR(ls[i]) == ls[i]
    ensures SplitLines(Join(ls, '\n')) == ls
  {
    SplitJoin(ls, '\n');
  }

  /** Lines joined with CRLF split into the same lines as with LF. */
  lemma SplitLinesCRLF(ls: seq<string>)
    requires |ls| > 0
    requires forall i :: 0 <= i < |ls| ==> '\n' !in ls[i]
    ensures SplitLines(Join(seq(|ls|, i requires 0 <= i < |ls| => if i < |ls| - 1 then ls[i] + "\r" else ls[i]), '\n')) == ls
  {
    var withCR := seq(|ls|, i requires 0 <= i < |ls| => if i < |ls| - 1 then ls[i] + "\r" else ls[i]);
    forall i | 0 <= i < |withCR|
      ensures '\n' !in withCR[i]
    {
      if i < |ls| - 1 {
        assert withCR[i] == ls[i] + "\r";
      }
    }
    SplitJoin(withCR, '\n');
    forall i | 0 <= i < |ls| - 1
      ensures DropCR(withCR[i]) == ls[i]
    {
      assert withCR[i] == ls[i] + "\r";
    }
  }

  /** A serialised entry is a non-empty line with no line feed that ends in a digit. */
  lemma EntryLinePlain(e: (string, nat))
    requires PlainKey(e.0)
    ensures '\n' !in EntryLine(e) && EntryLine(e) != "" && DropCR(EntryLine(e)) == EntryLine(e)
  {
    var v := NatToString(e.1);
    var l := EntryLine(e);
    assert l == e.0 + "=" + v;
    assert v[|v| - 1] == l[|l| - 1];
    assert IsDigit(v[|v| - 1]);
    DigitsExclude(v, '\n');
  }

  /** Parsing serialised entries assigns them in order over the defaults. */
  lemma SerialiseRoundTrip(entries: seq<(string, nat)>)
    requires |entries| > 0
    requires forall i :: 0 <= i < |entries| ==> PlainKey(entries[i].0)
    ensures Parse(Serialise(entries)) == Assign(Defaults(), entries)
  {
    var ls := EntryLines(entries);
    forall i | 0 <= i < |ls|
      ensures '\n' !in ls[i] && ls[i] != "" && DropCR(ls[i]) == ls[i]
    {
      EntryLinePlain(entries[i]);
    }
    SplitLinesJoin(ls);
    NonEmptyLinesId(ls);
    ApplyEntryLines(Defaults(), entries);
  }

  /** Assigning values a map already holds changes nothing. */
  lemma {:induction false} AssignSame(base: Settings, entries: seq<(string, nat)>)
    requires forall i :: 0 <= i < |entries| ==> entries[i].0 in base && base[entries[i].0] == entries[i].1 as real
    ensures Assign(base, entries) == base
    decreases |entries|
  {
    if |entries| > 0 {
      assert base[entries[0].0 := entries[0].1 as real] == base;
      AssignSame(base, entries[1..]);
    }
  }

  lemma DefaultKeysPlain()
    ensures forall i :: 0 <= i < |DefaultEntries| ==> PlainKey(DefaultEntries[i].0)
  {
    assert PlainKey("fiveStarsToPull");
    assert PlainKey("fiveStarsToScreenshot");
  }

  /** Reading back the file written on first run gives the defaults. */
  lemma DefaultRoundTrip()
    ensures LoadSettings(Some(DefaultText())).0 == LoadSettings(None).0
  {
    var d := Defaults();
    DefaultKeysPlain();
    SerialiseRoundTrip(DefaultEntries);
    assert Parse(DefaultText()) == Assign(d, DefaultEntries);
    DefaultsHoldEntries();
    AssignSame(d, DefaultEntries);
  }

  lemma DefaultsHoldEntries()
    ensures forall i :: 0 <= i < |DefaultEntries| ==>
      DefaultEntries[i].0 in Defaults() && Defaults()[DefaultEntries[i].0] == DefaultEntries[i].1 as real
  {
    var d := Defaults();
    assert DefaultEntries[0] == ("fiveStarsToPull", 2);
    assert DefaultEntries[1] == ("fiveStarsToScreenshot", 1);
  }
}
