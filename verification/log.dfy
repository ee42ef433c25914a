/** `logWithStyle` (components/log.cjs): the line it prints is the ANSI
    style codes, the message, then the reset code. Printing is not modelled;
    the printed string is the result. */
module Log {
  import opened Wrappers
  import opened Text

  /** The options object `{ fg = '', bg = '', bold = false }`. */
  datatype StyleOptions = StyleOptions(fg: string, bg: string, bold: bool)

  /** What the destructuring defaults give when no options are passed. */
  const NoStyle := StyleOptions("", "", false)

  const Esc: char := '\U{1B}'

  /** The SGR escape sequence with parameters `p`: `ESC [ p m`. */
  function Sgr(p: string): string {
    [Esc] + "[" + p + "m"
  }

  const Reset: string := Sgr("0")
  const BoldCode: string := Sgr("1")

  /** The eight colour names of the `colorCodes` tables. */
  datatype Colour = Black | Red | Green | Yellow | Blue | Magenta | Cyan | White

  /** The key a colour has in both tables. */
  function Name(c: Colour): string {
    match c
    case Black => "black"
    case Red => "red"
    case Green => "green"
    case Yellow => "yellow"
    case Blue => "blue"
    case Magenta => "magenta"
    case Cyan => "cyan"
    case White => "white"
  }

  /** The colour whose key is `k`, if any: the keys `colorCodes` defines. */
  function ColourOf(k: string): (r: Option<Colour>)
    ensures r.Some? ==> Name(r.value) == k
    ensures r.None? <==> forall c :: Name(c) != k
  {
    if k == "black" then Some(Black)
    else if k == "red" then Some(Red)
    else if k == "green" then Some(Green)
    else if k == "yellow" then Some(Yellow)
    else if k == "blue" then Some(Blue)
    else if k == "magenta" then Some(Magenta)
    else if k == "cyan" then Some(Cyan)
    else if k == "white" then Some(White)
    else None
  }

  /** Each of the eight names finds its own colour: both tables hold an
      entry under every name. */
  lemma NameRoundTrip(c: Colour)
    ensures ColourOf(Name(c)) == Some(c)
  {
  }

  /** `colorCodes.fg`: black is the 256-colour index 232, the others the
      standard eight foreground colours. */
  function FgParam(c: Colour): string {
    match c
    case Black => "38;5;232"
    case Red => "31"
    case Green => "32"
    case Yellow => "33"
    case Blue => "34"
    case Magenta => "35"
    case Cyan => "36"
    case White => "37"
  }

  /** `colorCodes.bg`, the matching background colours. */
  function BgParam(c: Colour): string {
    match c
    case Black => "48;5;232"
    case Red => "41"
    case Green => "42"
    case Yellow => "43"
    case Blue => "44"
    case Magenta => "45"
    case Cyan => "46"
    case White => "47"
  }

  /** `colorCodes[layer][name.toLowerCase()] || ''`; `fg` picks the table. */
  function Lookup(fg: bool, name: string): string {
    match ColourOf(ToLower(name))
    case Some(c) => Sgr(if fg then FgParam(c) else BgParam(c))
    case None => ""
  }

  /** The code pushed for a colour option; an empty option pushes nothing. */
  function ColourPart(fg: bool, name: string): string {
    if name != "" then Lookup(fg, name) else ""
  }

  /** `styles.join('')`: bold, then foreground, then background. */
  function Styles(o: StyleOptions): string {
    (if o.bold then BoldCode else "") + ColourPart(true, o.fg) + ColourPart(false, o.bg)
  }

  /** The line `logWithStyle(message, o)` prints. */
  function LogLine(message: string, o: StyleOptions): (r: string)
    ensures EndsWith(r, Reset)
    ensures |r| == |Styles(o)| + |message| + |Reset|
    ensures r[..|Styles(o)|] == Styles(o)
    ensures r[|Styles(o)|..|r| - |Reset|] == message
    ensures o.bold ==> StartsWith(r, BoldCode)
    ensures o == NoStyle ==> r == message + Reset
  {
    Styles(o) + message + Reset
  }

  /** Colour names are matched case-insensitively: any spelling finds the
      same code as its lower-case form. */
  lemma LookupIgnoresCase(fg: bool, name: string)
    ensures Lookup(fg, name) == Lookup(fg, ToLower(name))
  {
    LowerIdempotent(name);
  }

  lemma LowerIdempotent(s: string)
    ensures ToLower(ToLower(s)) == ToLower(s)
  {
  }

  /** A name that lower-cases to a colour's key finds that colour's code in
      the table picked by `fg`. */
  lemma LookupByName(fg: bool, name: string, c: Colour)
    requires ToLower(name) == Name(c)
    ensures Lookup(fg, name) == Sgr(if fg then FgParam(c) else BgParam(c))
  {
    NameRoundTrip(c);
  }

  /** A name that lower-cases to no key adds nothing. */
  lemma LookupUnknown(fg: bool, name: string)
    requires forall c :: Name(c) != ToLower(name)
    ensures Lookup(fg, name) == ""
  {
  }

  /** The visible text of a string: every escape sequence `ESC ... m` removed. */
  function Visible(s: string): string
    decreases |s|
  {
    if |s| == 0 then ""
    else if s[0] == Esc then
      if 'm' in s then Visible(s[IndexOf(s, 'm') + 1..]) else ""
    else [s[0]] + Visible(s[1..])
  }

  /** An SGR code as the table holds them: escape, then characters other
      than `m`, then `m`. */
  predicate IsCode(c: string) {
    |c| >= 2 && c[0] == Esc && c[|c| - 1] == 'm' && 'm' !in c[..|c| - 1]
  }

  lemma VisibleSkipsCode(c: string, rest: string)
    requires IsCode(c)
    ensures Visible(c + rest) == Visible(rest)
  {
    var s := c + rest;
    assert s[..|c| - 1] == c[..|c| - 1];
    assert s[|c| - 1] == 'm';
    assert IndexOf(s, 'm') == |c| - 1;
    assert s[|c|..] == rest;
  }

  lemma {:induction false} VisibleKeepsText(text: string, rest: string)
    requires Esc !in text
    ensures Visible(text + rest) == text + Visible(rest)
    decreases |text|
  {
    if |text| > 0 {
      var s := text + rest;
      assert s[0] == text[0] && s[0] != Esc;
      assert s[1..] == text[1..] + rest;
      VisibleKeepsText(text[1..], rest);
      assert Visible(s) == [text[0]] + (text[1..] + Visible(rest));
      assert text == [text[0]] + text[1..];
    } else {
      assert text + rest == rest;
    }
  }

  lemma CodeShape(p: string)
    requires 'm' !in p
    ensures IsCode(Sgr(p))
  {
    var c := Sgr(p);
    assert c[..|c| - 1] == [Esc] + "[" + p;
  }

  /** Every table entry is a complete escape code. */
  lemma TablesHoldCodes(c: Colour)
    ensures IsCode(Sgr(FgParam(c))) && IsCode(Sgr(BgParam(c)))
  {
    CodeShape(FgParam(c));
    CodeShape(BgParam(c));
  }

  lemma ColourPartIsCode(fg: bool, name: string)
    ensures ColourPart(fg, name) == "" || IsCode(ColourPart(fg, name))
  {
    if name != "" {
      match ColourOf(ToLower(name))
      case Some(c) => TablesHoldCodes(c);
      case None =>
    }
  }

  /** A part that is empty or a complete code shows nothing. */
  lemma SkipPart(c: string, rest: string)
    requires c == "" || IsCode(c)
    ensures Visible(c + rest) == Visible(rest)
  {
    if c == "" {
      assert c + rest == rest;
    } else {
      VisibleSkipsCode(c, rest);
    }
  }

  lemma SkipParts(b: string, fg: string, bg: string, rest: string)
    requires b == "" || IsCode(b)
    requires fg == "" || IsCode(fg)
    requires bg == "" || IsCode(bg)
    ensures Visible(b + fg + bg + rest) == Visible(rest)
  {
    assert b + fg + bg + rest == b + (fg + (bg + rest));
    SkipPart(bg, rest);
    SkipPart(fg, bg + rest);
    SkipPart(b, fg + (bg + rest));
  }

  lemma StylesAreCodes(o: StyleOptions, rest: string)
    ensures Visible(Styles(o) + rest) == Visible(rest)
  {
    ColourPartIsCode(true, o.fg);
    ColourPartIsCode(false, o.bg);
    CodeShape("1");
    SkipParts(if o.bold then BoldCode else "", ColourPart(true, o.fg), ColourPart(false, o.bg), rest);
  }

  /** The escape codes a string of complete codes is made of, in order;
      `None` when it holds anything else. */
  function Codes(s: string): Option<seq<string>>
    decreases |s|
  {
    if |s| == 0 then Some([])
    else if s[0] == Esc && 'm' in s then
      var i := IndexOf(s, 'm');
      match Codes(s[i + 1..])
      case Some(cs) => Some([s[..i + 1]] + cs)
      case None => None
    else None
  }

  lemma CodesCons(c: string, rest: string, cs: seq<string>)
    requires IsCode(c) && Codes(rest) == Some(cs)
    ensures Codes(c + rest) == Some([c] + cs)
  {
    var s := c + rest;
    assert s[..|c| - 1] == c[..|c| - 1];
    assert s[|c| - 1] == 'm';
    assert IndexOf(s, 'm') == |c| - 1;
    assert s[..|c|] == c;
    assert s[|c|..] == rest;
  }

  /** The codes of an optional part: none when it is empty. */
  function Part(c: string): seq<string> {
    if c == "" then [] else [c]
  }

  lemma CodesOne(c: string)
    requires c == "" || IsCode(c)
    ensures Codes(c) == Some(Part(c))
  {
    if c != "" {
      assert Codes("") == Some([]);
      CodesCons(c, "", []);
      assert c + "" == c;
      assert [c] + [] == [c];
    }
  }

  lemma CodesTwo(fg: string, bg: string)
    requires fg == "" || IsCode(fg)
    requires bg == "" || IsCode(bg)
    ensures Codes(fg + bg) == Some(Part(fg) + Part(bg))
  {
    CodesOne(bg);
    if fg == "" {
      assert fg + bg == bg;
      assert Part(fg) + Part(bg) == Part(bg);
    } else {
      CodesCons(fg, bg, Part(bg));
    }
  }

  lemma CodesParts(b: string, fg: string, bg: string)
    requires b == "" || IsCode(b)
    requires fg == "" || IsCode(fg)
    requires bg == "" || IsCode(bg)
    ensures Codes(b + (fg + bg)) == Some(Part(b) + (Part(fg) + Part(bg)))
  {
    CodesTwo(fg, bg);
    if b == "" {
      assert b + (fg + bg) == fg + bg;
      assert Part(b) + (Part(fg) + Part(bg)) == Part(fg) + Part(bg);
    } else {
      CodesCons(b, fg + bg, Part(fg) + Part(bg));
    }
  }

  /** `styles.join('')` is made of complete codes only: the bold code when
      asked for, then the foreground code, then the background code, each
      present only when its option names a known colour. */
  lemma StylesCodes(o: StyleOptions)
    ensures Codes(Styles(o)) == Some(Part(if o.bold then BoldCode else "")
                                     + Part(ColourPart(true, o.fg)) + Part(ColourPart(false, o.bg)))
  {
    ColourPartIsCode(true, o.fg);
    ColourPartIsCode(false, o.bg);
    CodeShape("1");
    var b, fg, bg := if o.bold then BoldCode else "", ColourPart(true, o.fg), ColourPart(false, o.bg);
    CodesParts(b, fg, bg);
    Assoc(b, fg, bg);
    Assoc(Part(b), Part(fg), Part(bg));
  }

  lemma Assoc<T>(a: seq<T>, b: seq<T>, c: seq<T>)
    ensures a + b + c == a + (b + c)
  {
  }

  lemma ResetInvisible()
    ensures Visible(Reset) == ""
  {
    CodeShape("0");
    VisibleSkipsCode(Reset, "");
    assert Reset + "" == Reset;
  }

  /** Whatever the options, a terminal shows exactly the message: the styles
      and the reset are all complete escape codes. */
  lemma LogLineShowsMessage(message: string, o: StyleOptions)
    requires Esc !in message
    ensures Visible(LogLine(message, o)) == message
  {
    assert LogLine(message, o) == Styles(o) + (message + Reset);
    StylesAreCodes(o, message + Reset);
    VisibleKeepsText(message, Reset);
    ResetInvisible();
  }
}
