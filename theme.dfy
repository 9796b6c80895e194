/** Theme definitions and the namespace cascade of colour lookup (src/theme.ts). */
module Theme {
  import opened Wrappers
  import Strings

  /** A style entry: an object with optional `fg`/`bg`, or a bare colour string
      (foreground-only shorthand). */
  datatype ThemeStyle = Style(fg: Option<string>, bg: Option<string>) | Bare(color: string)

  type Styles = map<string, ThemeStyle>

  datatype ThemeDefinition = ThemeDefinition(id: Option<string>, styles: Styles)

  datatype Channel = Fg | Bg

  /** JavaScript truthiness of an entry: objects are truthy, the empty string is not. */
  predicate Truthy(entry: ThemeStyle) {
    entry.Style? || entry.color != ""
  }

  /** `styles[target]` is present and truthy. */
  predicate Present(styles: Styles, target: string) {
    target in styles && Truthy(styles[target])
  }

  /** The cascade `resolveEntry` computes, one trimming step per call. */
  function Resolve(styles: Styles, target: string): (r: Option<ThemeStyle>)
    ensures r.Some? ==> Truthy(r.value)
    decreases |target|
  {
    if target == "" then None
    else if Present(styles, target) then Some(styles[target])
    else
      var idx := Strings.LastIndexOf(target, '.');
      if idx == -1 then None else Resolve(styles, target[..idx])
  }

  /** `resolveEntry(theme, key)`: walk the key and its dot-trimmed prefixes until a
      truthy entry is found. */
  method ResolveEntry(theme: ThemeDefinition, key: string) returns (r: Option<ThemeStyle>)
    ensures r == Resolve(theme.styles, key)
  {
    var target := key;
    while target != ""
      invariant Resolve(theme.styles, target) == Resolve(theme.styles, key)
      decreases |target|
    {
      if Present(theme.styles, target) {
        return Some(theme.styles[target]);
      }
      var idx := Strings.LastIndexOf(target, '.');
      if idx == -1 {
        return None;
      }
      target := target[..idx];
    }
    return None;
  }

  /** `key[..n]` is a prefix of `key` made of whole dot-separated segments: the key
      itself or the part before one of its dots, and not empty. */
  predicate Candidate(key: string, n: int) {
    0 < n <= |key| && (n == |key| || key[n] == '.')
  }

  /** The cascade returns the entry of the longest present whole-segment prefix, and
      nothing exactly when no such prefix is present. */
  lemma {:induction false} ResolveNearest(styles: Styles, key: string)
    ensures Resolve(styles, key).None? <==> forall n :: Candidate(key, n) ==> !Present(styles, key[..n])
    ensures Resolve(styles, key).Some? ==>
      exists n :: Candidate(key, n) && Present(styles, key[..n]) && Resolve(styles, key) == Some(styles[key[..n]])
        && forall m :: Candidate(key, m) && m > n ==> !Present(styles, key[..m])
    decreases |key|
  {
    if key == "" {
    } else if Present(styles, key) {
      assert Candidate(key, |key|) && key[..|key|] == key;
    } else {
      var idx := Strings.LastIndexOf(key, '.');
      if idx == -1 {
        forall n | Candidate(key, n) ensures !Present(styles, key[..n]) {
          assert n == |key| && key[..n] == key;
        }
      } else {
        var p := key[..idx];
        ResolveNearest(styles, p);
        // the candidates of `key` are `key` itself and the candidates of `p`
        forall n | Candidate(key, n) && n < |key| ensures Candidate(p, n) && p[..n] == key[..n] {
          assert n <= idx;
        }
        forall n | Candidate(p, n) ensures Candidate(key, n) && p[..n] == key[..n] {
        }
        assert key[..|key|] == key;
        if Resolve(styles, p).Some? {
          var n :| Candidate(p, n) && Present(styles, p[..n]) && Resolve(styles, p) == Some(styles[p[..n]])
            && forall m :: Candidate(p, m) && m > n ==> !Present(styles, p[..m]);
          assert Candidate(key, n);
          forall m | Candidate(key, m) && m > n ensures !Present(styles, key[..m]) {
            if m < |key| {
              assert Candidate(p, m);
            }
          }
        }
      }
    }
  }

  /** A present, truthy entry under a non-empty key is returned as it is, whatever its
      prefixes hold. (An entry under the empty key is never consulted.) */
  lemma ResolveExact(styles: Styles, key: string)
    requires key != "" && Present(styles, key)
    ensures Resolve(styles, key) == Some(styles[key])
  {
  }

  /** A falsy entry (the empty string) is passed over as if it were absent. */
  lemma {:induction false} ResolveSkipsFalsy(styles: Styles, key: string)
    requires key in styles && styles[key] == Bare("")
    ensures Resolve(styles, key) == Resolve(styles - {key}, key)
  {
    ResolveNearest(styles, key);
    ResolveNearest(styles - {key}, key);
    forall n | Candidate(key, n) ensures Present(styles, key[..n]) <==> Present(styles - {key}, key[..n]) {
    }
    var r, r' := Resolve(styles, key), Resolve(styles - {key}, key);
    if r.Some? && r'.Some? {
      var n :| Candidate(key, n) && Present(styles, key[..n]) && r == Some(styles[key[..n]])
        && forall m :: Candidate(key, m) && m > n ==> !Present(styles, key[..m]);
      var n' :| Candidate(key, n') && Present(styles - {key}, key[..n']) && r' == Some((styles - {key})[key[..n']])
        && forall m :: Candidate(key, m) && m > n' ==> !Present(styles - {key}, key[..m]);
      assert n == n';
    }
  }

  /** `getThemeColor(theme, key, channel = 'fg')`. */
  function GetThemeColor(theme: ThemeDefinition, key: string, channel: Channel := Fg): (r: Option<string>)
    ensures Resolve(theme.styles, key).None? ==> r.None?
    ensures (Resolve(theme.styles, key).Some? && Resolve(theme.styles, key).value.Bare?) ==>
      r == (if channel == Fg then Some(Resolve(theme.styles, key).value.color) else None)
    ensures (Resolve(theme.styles, key).Some? && Resolve(theme.styles, key).value.Style?) ==>
      r == (if channel == Fg then Resolve(theme.styles, key).value.fg else Resolve(theme.styles, key).value.bg)
  {
    match Resolve(theme.styles, key)
    case None => None
    case Some(Bare(color)) => if channel == Fg then Some(color) else None
    case Some(Style(fg, bg)) => if channel == Fg then fg else bg
  }

  /** The channel of the nearest entry is final: an object entry without the channel
      gives nothing even when an ancestor has it. */
  lemma NoChannelCascade(theme: ThemeDefinition, key: string, channel: Channel)
    requires key != "" && Present(theme.styles, key) && theme.styles[key].Style?
    requires (if channel == Fg then theme.styles[key].fg else theme.styles[key].bg) == None
    ensures GetThemeColor(theme, key, channel) == None
  {
  }

  /** A bare-string entry never answers a background lookup. */
  lemma BareHasNoBackground(theme: ThemeDefinition, key: string)
    requires key != "" && Present(theme.styles, key) && theme.styles[key].Bare?
    ensures GetThemeColor(theme, key) == Some(theme.styles[key].color)
    ensures GetThemeColor(theme, key, Bg) == None
  {
  }

  /** The nearest-ancestor example: `variable.parameter.special` takes the colour of
      `variable.parameter`, not of `variable`. */
  lemma CascadeExample()
    ensures GetThemeColor(ThemeDefinition(None, map[
      "variable" := Style(Some("#A"), None),
      "variable.parameter" := Style(Some("#B"), None)]), "variable.parameter.special") == Some("#B")
  {
    var styles := map["variable" := Style(Some("#A"), None), "variable.parameter" := Style(Some("#B"), None)];
    var key := "variable.parameter.special";
    assert !Present(styles, key);
    assert key[18] == '.' && forall j :: 18 < j < |key| ==> key[j] != '.';
    assert Strings.LastIndexOf(key, '.') == 18;
    assert key[..18] == "variable.parameter";
  }
}
