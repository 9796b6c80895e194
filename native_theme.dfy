/** The native theme model (src/theme.rs): colours and their `#rrggbb` form,
    palettes, the flattening of a parsed theme table into colours, and the
    prefix cascade of `Theme::get`. Strings are read as ASCII, one byte per
    character. */
module NativeTheme {
  import opened Wrappers
  import Strings

  newtype byte = x: int | 0 <= x < 256

  datatype Color =
    | Reset | Black | Red | Green | Yellow | Blue | Magenta | Cyan | Gray
    | LightRed | LightGreen | LightYellow | LightBlue | LightMagenta | LightCyan | LightGray | White
    | Rgb(r: byte, g: byte, b: byte)

  // ---------------------------------------------------------------- printing

  function HexDigit(n: nat): (c: char)
    requires n < 16
    ensures IsLowerHex(c) && DigitValue(c) == n
  {
    if n < 10 then ('0' as int + n) as char else ('a' as int + n - 10) as char
  }

  /** `{:02x}`: two lower-case hex digits, high nibble first. */
  function Hex2(b: byte): string {
    [HexDigit(b as nat / 16), HexDigit(b as nat % 16)]
  }

  /** `Display for Color`: `#rrggbb` for an RGB colour, `#000000` for every named one. */
  function Display(c: Color): (s: string)
    ensures |s| == 7 && s[0] == '#'
    ensures forall i :: 1 <= i < 7 ==> IsLowerHex(s[i])
  {
    match c
    case Rgb(r, g, b) => "#" + Hex2(r) + Hex2(g) + Hex2(b)
    case _ => "#000000"
  }

  // ---------------------------------------------------------------- parsing

  predicate IsLowerHex(c: char) {
    '0' <= c <= '9' || 'a' <= c <= 'f'
  }

  predicate IsHexDigit(c: char) {
    '0' <= c <= '9' || 'a' <= c <= 'f' || 'A' <= c <= 'F'
  }

  function DigitValue(c: char): (v: nat)
    requires IsHexDigit(c)
    ensures v < 16
  {
    if '0' <= c <= '9' then c as int - '0' as int
    else if 'a' <= c <= 'f' then c as int - 'a' as int + 10
    else c as int - 'A' as int + 10
  }

  /** The value of a string of hex digits, most significant first. */
  function HexValue(digits: string): Option<nat> {
    if digits == [] then Some(0)
    else if !IsHexDigit(digits[|digits| - 1]) then None
    else
      match HexValue(digits[..|digits| - 1])
      case None => None
      case Some(v) => Some(16 * v + DigitValue(digits[|digits| - 1]))
  }

  /** `u8::from_str_radix(s, 16)`: an optional leading `+`, then at least one hex
      digit, and a value below 256. */
  function FromStrRadix16(s: string): Option<byte> {
    if s == [] || s == "+" then None
    else
      var digits := if s[0] == '+' then s[1..] else s;
      match HexValue(digits)
      case None => None
      case Some(v) => if v < 256 then Some(v as byte) else None
  }

  /** The two-character case `string_to_rgb` relies on: two hex digits, or `+` and
      one hex digit. */
  lemma PairValue(p: string)
    requires |p| == 2
    ensures FromStrRadix16(p).Some? <==> (IsHexDigit(p[0]) || p[0] == '+') && IsHexDigit(p[1])
    ensures FromStrRadix16(p).Some? && IsHexDigit(p[0]) ==>
      FromStrRadix16(p).value as nat == 16 * DigitValue(p[0]) + DigitValue(p[1])
    ensures FromStrRadix16(p).Some? && p[0] == '+' ==> FromStrRadix16(p).value as nat == DigitValue(p[1])
  {
    assert p != "+";
    SingleDigit(p[0]);
    SingleDigit(p[1]);
    assert p[..1] == [p[0]];
    if p[0] == '+' {
      assert p[1..] == [p[1]];
    }
  }

  lemma SingleDigit(c: char)
    ensures HexValue([c]) == if IsHexDigit(c) then Some(DigitValue(c)) else None
  {
    assert [c][..0] == [];
  }

  datatype ThemeError = UnrecognizedValue | MalformedHexcode(text: string)

  /** `Palette::string_to_rgb(s)`: characters 1-2, 3-4 and 5-6 as hex pairs; the
      first character is not looked at and anything after the seventh is ignored. */
  function StringToRgb(s: string): Result<Color, ThemeError> {
    if |s| >= 7 && FromStrRadix16(s[1..3]).Some? && FromStrRadix16(s[3..5]).Some? && FromStrRadix16(s[5..7]).Some? then
      Success(Rgb(FromStrRadix16(s[1..3]).value, FromStrRadix16(s[3..5]).value, FromStrRadix16(s[5..7]).value))
    else Failure(MalformedHexcode(s))
  }

  /** What `string_to_rgb` accepts, character by character. */
  lemma StringToRgbAccepts(s: string)
    ensures StringToRgb(s).Success? <==>
      && |s| >= 7
      && (IsHexDigit(s[1]) || s[1] == '+') && IsHexDigit(s[2])
      && (IsHexDigit(s[3]) || s[3] == '+') && IsHexDigit(s[4])
      && (IsHexDigit(s[5]) || s[5] == '+') && IsHexDigit(s[6])
    ensures StringToRgb(s).Failure? ==> StringToRgb(s).error == MalformedHexcode(s)
  {
    if |s| >= 7 {
      PairValue(s[1..3]);
      PairValue(s[3..5]);
      PairValue(s[5..7]);
    }
  }

  /** Only the first seven characters count. */
  lemma StringToRgbIgnoresTail(s: string, tail: string)
    requires |s| >= 7
    ensures StringToRgb(s + tail).Success? == StringToRgb(s).Success?
    ensures StringToRgb(s).Success? ==> StringToRgb(s + tail) == StringToRgb(s)
  {
    var t := s + tail;
    assert t[1..3] == s[1..3] && t[3..5] == s[3..5] && t[5..7] == s[5..7];
  }

  lemma Hex2Parses(b: byte)
    ensures FromStrRadix16(Hex2(b)) == Some(b)
  {
    var p := Hex2(b);
    PairValue(p);
    assert IsHexDigit(p[0]) && IsHexDigit(p[1]);
  }

  /** Printing an RGB colour and parsing it back gives the colour. */
  lemma DisplayRoundTrip(c: Color)
    requires c.Rgb?
    ensures StringToRgb(Display(c)) == Success(c)
  {
    var s := Display(c);
    assert s[1..3] == Hex2(c.r) && s[3..5] == Hex2(c.g) && s[5..7] == Hex2(c.b);
    Hex2Parses(c.r);
    Hex2Parses(c.g);
    Hex2Parses(c.b);
  }

  /** Every named colour prints as black, so the round trip loses it. */
  lemma NamedDisplaysBlack(c: Color)
    requires !c.Rgb?
    ensures Display(c) == "#000000"
    ensures StringToRgb(Display(c)) == Success(Rgb(0, 0, 0))
  {
    var s := Display(c);
    assert s[1..3] == "00" && s[3..5] == "00" && s[5..7] == "00";
    PairValue("00");
  }

  lemma LowerHexPair(p: string)
    requires |p| == 2 && IsLowerHex(p[0]) && IsLowerHex(p[1])
    ensures FromStrRadix16(p).Some? && Hex2(FromStrRadix16(p).value) == p
  {
    PairValue(p);
    var v := FromStrRadix16(p).value as nat;
    assert v / 16 == DigitValue(p[0]) && v % 16 == DigitValue(p[1]);
  }

  /** The other direction: a seven-character code in lower-case hex prints back as
      itself, with `#` in front whatever its first character was. */
  lemma ParseRoundTrip(s: string)
    requires |s| == 7 && forall i :: 1 <= i < 7 ==> IsLowerHex(s[i])
    ensures StringToRgb(s).Success? && Display(StringToRgb(s).value) == "#" + s[1..]
  {
    LowerHexPair(s[1..3]);
    LowerHexPair(s[3..5]);
    LowerHexPair(s[5..7]);
    assert s[1..] == s[1..3] + s[3..5] + s[5..7];
  }

  // ---------------------------------------------------------------- palettes

  /** A parsed TOML value, as far as themes look at it. */
  datatype TomlValue = Str(s: string) | Table(entries: map<string, TomlValue>) | Other

  datatype Palette = Palette(colors: map<string, Color>)

  /** `Palette::default()`: the seventeen named colours. */
  function DefaultColors(): map<string, Color> {
    map[
      "default" := Reset, "black" := Black, "red" := Red, "green" := Green,
      "yellow" := Yellow, "blue" := Blue, "magenta" := Magenta, "cyan" := Cyan,
      "gray" := Gray, "light-red" := LightRed, "light-green" := LightGreen,
      "light-yellow" := LightYellow, "light-blue" := LightBlue,
      "light-magenta" := LightMagenta, "light-cyan" := LightCyan,
      "light-gray" := LightGray, "white" := White]
  }

  /** `Palette::new(palette)`: the defaults extended by the given colours. */
  function NewPalette(user: map<string, Color>): (p: Palette)
    ensures p.colors.Keys == DefaultColors().Keys + user.Keys
    ensures forall k :: k in user ==> p.colors[k] == user[k]
    ensures forall k :: k in DefaultColors() && k !in user ==> p.colors[k] == DefaultColors()[k]
  {
    Palette(DefaultColors() + user)
  }

  /** `parse_value_as_str`. */
  function ValueAsStr(value: TomlValue): Result<string, ThemeError> {
    if value.Str? then Success(value.s) else Failure(UnrecognizedValue)
  }

  /** `Palette::parse_color(value)`: a palette name first, then a hex code. */
  function ParseColor(palette: Palette, value: TomlValue): Result<Color, ThemeError> {
    match ValueAsStr(value)
    case Failure(e) => Failure(e)
    case Success(s) => if s in palette.colors then Success(palette.colors[s]) else StringToRgb(s)
  }

  /** A palette name wins over its spelling as a hex code; a non-string is refused;
      a printed RGB colour that is not a palette name parses back to itself. */
  lemma ParseColorLookup(palette: Palette, value: TomlValue)
    ensures !value.Str? ==> ParseColor(palette, value) == Failure(UnrecognizedValue)
    ensures value.Str? && value.s in palette.colors ==> ParseColor(palette, value) == Success(palette.colors[value.s])
    ensures value.Str? && value.s !in palette.colors ==> ParseColor(palette, value) == StringToRgb(value.s)
  {
  }

  lemma ParseColorDisplay(palette: Palette, c: Color)
    requires c.Rgb? && Display(c) !in palette.colors
    ensures ParseColor(palette, Str(Display(c))) == Success(c)
  {
    DisplayRoundTrip(c);
  }

  /** A definition that does not override `red` gets the named colour. */
  lemma NamedColor(user: map<string, Color>)
    requires "red" !in user
    ensures ParseColor(NewPalette(user), Str("red")) == Success(Red)
  {
    assert "red" in DefaultColors();
  }

  /** The colour `try_from` reads from one palette entry: a string that is a hex code. */
  function EntryColor(value: TomlValue): Result<Color, ThemeError> {
    match ValueAsStr(value)
    case Failure(e) => Failure(e)
    case Success(s) => StringToRgb(s)
  }

  /** Whether every entry of a palette table is a hex code. */
  predicate AllHex(entries: map<string, TomlValue>) {
    forall k :: k in entries ==> EntryColor(entries[k]).Success?
  }

  /** `Palette::try_from(value)`: a non-table gives the defaults; a table whose entries
      are all hex codes extends them; any other entry is an error. */
  ghost function PaletteFrom(value: TomlValue): (r: Result<Palette, ThemeError>)
    ensures !value.Table? ==> r == Success(NewPalette(map[]))
    ensures value.Table? ==> (r.Success? <==> AllHex(value.entries))
    ensures r.Success? && value.Table? ==>
      r.value == NewPalette(map k | k in value.entries :: EntryColor(value.entries[k]).value)
    ensures r.Failure? ==> exists k :: k in value.entries && EntryColor(value.entries[k]) == Failure(r.error)
  {
    if !value.Table? then Success(NewPalette(map[]))
    else if AllHex(value.entries) then Success(NewPalette(map k | k in value.entries :: EntryColor(value.entries[k]).value))
    else
      var k :| k in value.entries && EntryColor(value.entries[k]).Failure?;
      Failure(EntryColor(value.entries[k]).error)
  }

  /** The loop of `Palette::try_from`: parse each entry and insert it, stopping at
      the first failure. */
  method PaletteTryFrom(value: TomlValue) returns (r: Result<Palette, ThemeError>)
    ensures r.Success? <==> PaletteFrom(value).Success?
    ensures r.Success? ==> r == PaletteFrom(value)
    ensures r.Failure? ==> exists k :: k in value.entries && EntryColor(value.entries[k]) == Failure(r.error)
  {
    if !value.Table? {
      return Success(NewPalette(map[]));
    }
    var entries := value.entries;
    var palette: map<string, Color> := map[];
    var todo := entries.Keys;
    while todo != {}
      invariant todo <= entries.Keys
      invariant forall k :: k in palette <==> k in entries && k !in todo
      invariant forall k :: k in palette ==> EntryColor(entries[k]) == Success(palette[k])
      decreases |todo|
    {
      var name :| name in todo;
      var text := ValueAsStr(entries[name]);
      if text.Failure? {
        return Failure(text.error);
      }
      var color := StringToRgb(text.value);
      if color.Failure? {
        return Failure(color.error);
      }
      palette := palette[name := color.value];
      todo := todo - {name};
    }
    ParsedEntries(entries, palette);
    return Success(NewPalette(palette));
  }

  /** A map holding the parsed colour of every entry is the palette `try_from` builds. */
  lemma ParsedEntries(entries: map<string, TomlValue>, palette: map<string, Color>)
    requires forall k :: k in palette <==> k in entries
    requires forall k :: k in palette ==> EntryColor(entries[k]) == Success(palette[k])
    ensures AllHex(entries)
    ensures palette == map k | k in entries :: EntryColor(entries[k]).value
  {
    forall k | k in entries ensures EntryColor(entries[k]).Success? {
      assert k in palette;
    }
    var parsed := map k | k in entries :: EntryColor(entries[k]).value;
    SameMap(parsed, palette);
  }

  lemma SameMap<K, V>(a: map<K, V>, b: map<K, V>)
    requires forall k :: k in a <==> k in b
    requires forall k :: k in a ==> a[k] == b[k]
    ensures a == b
  {
  }

  // ---------------------------------------------------------------- theme tables

  /** The palette a theme table declares, or the defaults when it has none or it is
      malformed. */
  ghost function PaletteOf(values: map<string, TomlValue>): Palette {
    if "palette" in values then Recover(PaletteFrom(values["palette"])) else NewPalette(map[])
  }

  /** `unwrap_or_else(|err| Palette::default())`. */
  function Recover(parsed: Result<Palette, ThemeError>): Palette {
    if parsed.Success? then parsed.value else NewPalette(map[])
  }

  /** The entries of a theme table that name styles. */
  function StyleEntries(values: map<string, TomlValue>): (rest: map<string, TomlValue>)
    ensures rest.Keys == values.Keys - {"palette", "inherits"}
    ensures forall name :: name in rest ==> rest[name] == values[name]
  {
    values - {"palette"} - {"inherits"}
  }

  /** What one style entry contributes: a table its `fg` only, anything else itself
      as a colour; `None` when nothing is stored. */
  function StyleColor(palette: Palette, value: TomlValue): Option<Result<Color, ThemeError>> {
    match value
    case Table(entries) => if "fg" in entries then Some(ParseColor(palette, entries["fg"])) else None
    case _ => Some(ParseColor(palette, value))
  }

  /** The colour stored for one style entry, if any. */
  function StyleValue(palette: Palette, value: TomlValue): Option<Color> {
    match StyleColor(palette, value)
    case Some(Success(c)) => Some(c)
    case _ => None
  }

  predicate Fails(palette: Palette, value: TomlValue) {
    StyleColor(palette, value).Some? && StyleColor(palette, value).value.Failure?
  }

  /** The colours stored for the style entries named in `done`. */
  ghost function Stored(palette: Palette, rest: map<string, TomlValue>, done: set<string>): (m: map<string, Color>)
    ensures m.Keys <= rest.Keys
  {
    map name | name in done && name in rest && StyleValue(palette, rest[name]).Some? :: StyleValue(palette, rest[name]).value
  }

  ghost function FlattenWith(palette: Palette, rest: map<string, TomlValue>): Option<map<string, Color>> {
    if exists name :: name in rest && Fails(palette, rest[name]) then None
    else Some(Stored(palette, rest, rest.Keys))
  }

  /** `build_theme_values(values)`: the colour of every style entry that has one, or
      `None` when an entry's colour does not parse (the `unwrap` panics). */
  ghost function Flatten(values: map<string, TomlValue>): (r: Option<map<string, Color>>)
    ensures r.Some? ==> "palette" !in r.value && "inherits" !in r.value
    ensures r.None? <==> exists name :: name in StyleEntries(values) && Fails(PaletteOf(values), values[name])
  {
    FlattenWith(PaletteOf(values), StyleEntries(values))
  }

  /** A style table stores exactly its `fg`; a bare value is stored as a colour. */
  lemma FlattenEntries(values: map<string, TomlValue>, name: string)
    requires Flatten(values).Some? && name in StyleEntries(values)
    ensures values[name].Table? ==>
      (name in Flatten(values).value <==> "fg" in values[name].entries)
    ensures values[name].Table? && "fg" in values[name].entries ==>
      Flatten(values).value[name] == ParseColor(PaletteOf(values), values[name].entries["fg"]).value
    ensures !values[name].Table? ==>
      name in Flatten(values).value && Flatten(values).value[name] == ParseColor(PaletteOf(values), values[name]).value
  {
    assert !Fails(PaletteOf(values), values[name]);
  }

  lemma TableValue(palette: Palette, entries: map<string, TomlValue>, styles: map<string, Color>, name: string,
                   next: Option<map<string, Color>>)
    requires "fg" !in entries ==> next == Some(styles)
    requires "fg" in entries ==> next == match ParseColor(palette, entries["fg"])
      case Failure(_) => None
      case Success(c) => Some(styles[name := c])
    ensures next.None? <==> Fails(palette, Table(entries))
    ensures next.Some? ==>
      next.value == if StyleValue(palette, Table(entries)).Some? then styles[name := StyleValue(palette, Table(entries)).value] else styles
  {
  }

  lemma BareValue(palette: Palette, style: TomlValue, color: Result<Color, ThemeError>, styles: map<string, Color>,
                  name: string, next: Option<map<string, Color>>)
    requires !style.Table? && color == ParseColor(palette, style)
    requires next == if color.Failure? then None else Some(styles[name := color.value])
    ensures next.None? <==> Fails(palette, style)
    ensures next.Some? ==>
      next.value == if StyleValue(palette, style).Some? then styles[name := StyleValue(palette, style).value] else styles
  {
  }

  /** The inner loop over a style table: only its `fg` entry is parsed and stored;
      `None` when that colour does not parse. */
  method StoreTable(palette: Palette, name: string, entries: map<string, TomlValue>, styles: map<string, Color>)
    returns (r: Option<map<string, Color>>)
    ensures "fg" !in entries ==> r == Some(styles)
    ensures "fg" in entries ==> r == match ParseColor(palette, entries["fg"])
      case Failure(_) => None
      case Success(c) => Some(styles[name := c])
  {
    var updated := styles;
    var kinds := entries.Keys;
    while kinds != {}
      invariant kinds <= entries.Keys
      invariant "fg" in entries && "fg" !in kinds ==>
        ParseColor(palette, entries["fg"]).Success? && updated == styles[name := ParseColor(palette, entries["fg"]).value]
      invariant !("fg" in entries && "fg" !in kinds) ==> updated == styles
      decreases |kinds|
    {
      var kind :| kind in kinds;
      if kind == "fg" {
        var color := ParseColor(palette, entries[kind]);
        if color.Failure? {
          return None;
        }
        updated := updated[name := color.value];
      }
      kinds := kinds - {kind};
    }
    return Some(updated);
  }

  lemma FlattenFails(values: map<string, TomlValue>, palette: Palette, rest: map<string, TomlValue>, name: string)
    requires palette == PaletteOf(values) && rest == StyleEntries(values)
    requires name in rest && Fails(palette, rest[name])
    ensures Flatten(values) == None
  {
  }

  /** What the outer loop has stored for the names it has visited. */
  ghost predicate StoredFor(palette: Palette, rest: map<string, TomlValue>, done: set<string>, styles: map<string, Color>) {
    && (forall name :: name in styles ==> name in done)
    && (forall name :: name in done && name in rest ==>
          && !Fails(palette, rest[name])
          && (name in styles <==> StyleValue(palette, rest[name]).Some?)
          && (name in styles ==> styles[name] == StyleValue(palette, rest[name]).value))
  }

  lemma FlattenStores(palette: Palette, rest: map<string, TomlValue>, styles: map<string, Color>)
    requires StoredFor(palette, rest, rest.Keys, styles)
    ensures FlattenWith(palette, rest) == Some(styles)
  {
    var st := Stored(palette, rest, rest.Keys);
    forall name | name in styles ensures name in st && st[name] == styles[name] {
    }
    forall name | name in st ensures name in styles {
    }
    assert st == styles;
    assert !exists name :: name in rest && Fails(palette, rest[name]);
  }

  /** `values.remove("palette").map(Palette::try_from …).unwrap_or_default()`. */
  method DeclaredPalette(values: map<string, TomlValue>) returns (palette: Palette)
    ensures palette == PaletteOf(values)
  {
    palette := NewPalette(map[]);
    if "palette" in values {
      var parsed := PaletteTryFrom(values["palette"]);
      palette := Recover(parsed);
    }
  }

  /** The body of the loop over style entries: store the colour of one entry. */
  method StoreStyle(palette: Palette, name: string, style: TomlValue, styles: map<string, Color>)
    returns (next: Option<map<string, Color>>)
    ensures next.None? <==> Fails(palette, style)
    ensures next.Some? ==>
      next.value == if StyleValue(palette, style).Some? then styles[name := StyleValue(palette, style).value] else styles
  {
    if style.Table? {
      next := StoreTable(palette, name, style.entries, styles);
      TableValue(palette, style.entries, styles, name, next);
    } else {
      var color := ParseColor(palette, style);
      next := if color.Failure? then None else Some(styles[name := color.value]);
      BareValue(palette, style, color, styles, name, next);
    }
  }

  /** `build_theme_values(values)` with its loops: take out `palette` and `inherits`,
      then insert a colour per style entry, looking only at `fg` inside a table. */
  method BuildThemeValues(values: map<string, TomlValue>) returns (r: Option<map<string, Color>>)
    ensures r == Flatten(values)
  {
    var palette := DeclaredPalette(values);
    var rest := StyleEntries(values);
    var styles: map<string, Color> := map[];
    var todo := rest.Keys;
    while todo != {}
      invariant todo <= rest.Keys
      invariant StoredFor(palette, rest, rest.Keys - todo, styles)
      decreases |todo|
    {
      var name :| name in todo;
      var next := StoreStyle(palette, name, rest[name], styles);
      if next.None? {
        FlattenFails(values, palette, rest, name);
        return None;
      }
      styles := next.value;
      todo := todo - {name};
    }
    FlattenStores(palette, rest, styles);
    return Some(styles);
  }

  // ---------------------------------------------------------------- lookup

  datatype NativeThemeData = NativeThemeData(name: string, styles: map<string, Color>)

  /** `Theme::get(name)`: the name, then the part before its last `.`, and so on
      until no `.` is left; the first stored colour wins. */
  function Get(theme: NativeThemeData, name: string): Option<Color>
    decreases |name|
  {
    if name in theme.styles then Some(theme.styles[name])
    else
      var idx := Strings.LastIndexOf(name, '.');
      if idx == -1 then None else Get(theme, name[..idx])
  }

  /** `name[..n]` is one of the strings `Theme::get` tries: the name itself or the
      part before one of its dots, possibly empty. */
  predicate Tried(name: string, n: int) {
    0 <= n <= |name| && (n == |name| || name[n] == '.')
  }

  /** The colour of the longest tried prefix that is stored, and `None` exactly when
      none is. */
  lemma {:induction false} GetNearest(theme: NativeThemeData, name: string)
    ensures Get(theme, name).None? <==> forall n :: Tried(name, n) ==> name[..n] !in theme.styles
    ensures Get(theme, name).Some? ==>
      exists n :: Tried(name, n) && name[..n] in theme.styles && Get(theme, name) == Some(theme.styles[name[..n]])
        && forall m :: Tried(name, m) && m > n ==> name[..m] !in theme.styles
    decreases |name|
  {
    assert name[..|name|] == name;
    if name in theme.styles {
      assert Tried(name, |name|);
    } else {
      var idx := Strings.LastIndexOf(name, '.');
      if idx == -1 {
        forall n | Tried(name, n) ensures name[..n] !in theme.styles {
          assert n == |name|;
        }
      } else {
        var p := name[..idx];
        GetNearest(theme, p);
        forall n | Tried(name, n) && n < |name| ensures Tried(p, n) && p[..n] == name[..n] {
          assert n <= idx;
        }
        forall n | Tried(p, n) ensures Tried(name, n) && p[..n] == name[..n] {
        }
        if Get(theme, p).Some? {
          var n :| Tried(p, n) && p[..n] in theme.styles && Get(theme, p) == Some(theme.styles[p[..n]])
            && forall m :: Tried(p, m) && m > n ==> p[..m] !in theme.styles;
          assert Tried(name, n);
          forall m | Tried(name, m) && m > n ensures name[..m] !in theme.styles {
            if m < |name| {
              assert Tried(p, m);
            }
          }
        }
      }
    }
  }

  /** Unlike the TypeScript cascade, `Theme::get` also tries the empty prefix of a
      name that starts with a dot. */
  lemma GetTriesEmptyPrefix(theme: NativeThemeData, rest: string)
    requires "" in theme.styles && '.' !in rest && "." + rest !in theme.styles
    ensures Get(theme, "." + rest) == Some(theme.styles[""])
  {
    var name := "." + rest;
    assert name[0] == '.' && forall j :: 0 < j < |name| ==> name[j] != '.' by {
      forall j | 0 < j < |name| ensures name[j] != '.' {
        assert name[j] == rest[j - 1];
      }
    }
    assert Strings.LastIndexOf(name, '.') == 0;
    assert name[..0] == "";
  }
}
