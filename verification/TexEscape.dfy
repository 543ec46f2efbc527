/**
 The LaTeX escapers: a one-pass map (paper/build_epicure_native_assets.py, _tex) and chains of replacements
 (paper/build_public_scorer_sensitivity_assets.py and paper/build_selection_robustness_assets.py,
 _latex_escape; scripts/aggregate_frontier_evidence.py, _tex_escape).
 */
module TexEscape {
  import opened Outcomes

  type Table = map<char, string>

  function Image(t: Table, c: char): string {
    if c in t then t[c] else [c]
  }

  /** `"".join(table.get(c, c) for c in text)`. */
  function OnePass(s: string, t: Table): string {
    if s == "" then "" else Image(t, s[0]) + OnePass(s[1..], t)
  }

  /** `text.replace(c, r)` for a single character. */
  function Replace(s: string, c: char, r: string): string {
    if s == "" then "" else (if s[0] == c then r else [s[0]]) + Replace(s[1..], c, r)
  }

  const BACKSLASH := "\\textbackslash{}"

  const TEX_TABLE: Table := map[
    '\\' := BACKSLASH, '&' := "\\&", '%' := "\\%", '$' := "\\$", '#' := "\\#", '_' := "\\_",
    '{' := "\\{", '}' := "\\}", '~' := "\\textasciitilde{}", '^' := "\\textasciicircum{}"]

  function Tex(s: string): string {
    OnePass(s, TEX_TABLE)
  }

  function LatexEscape(s: string): string {
    var s1 := Replace(s, '\\', BACKSLASH);
    var s2 := Replace(s1, '&', "\\&");
    var s3 := Replace(s2, '%', "\\%");
    var s4 := Replace(s3, '_', "\\_");
    Replace(s4, '#', "\\#")
  }

  const LATEX_TABLE: Table := map['\\' := BACKSLASH]['&' := "\\&"]['%' := "\\%"]['_' := "\\_"]['#' := "\\#"]

  /** The first six replacements of `_tex_escape`, which do not disturb one another. */
  function TexEscapeStart(s: string): string {
    var s1 := Replace(s, '\\', BACKSLASH);
    var s2 := Replace(s1, '&', "\\&");
    var s3 := Replace(s2, '%', "\\%");
    var s4 := Replace(s3, '$', "\\$");
    var s5 := Replace(s4, '#', "\\#");
    Replace(s5, '_', "\\_")
  }

  function TexEscape(s: string): string {
    Replace(Replace(TexEscapeStart(s), '{', "\\{"), '}', "\\}")
  }

  const START_TABLE: Table :=
    map['\\' := BACKSLASH]['&' := "\\&"]['%' := "\\%"]['$' := "\\$"]['#' := "\\#"]['_' := "\\_"]

  /** The same replacements made at once. */
  const INTENDED_TABLE: Table := START_TABLE['{' := "\\{"]['}' := "\\}"]

  /** What the chain amounts to: the braces of an escaped backslash are escaped again. */
  const ACTUAL_TABLE: Table := INTENDED_TABLE['\\' := "\\textbackslash\\{\\}"]

  // ---- chains as one-pass maps ----

  lemma Associate(a: string, b: string, c: string)
    ensures a + (b + c) == a + b + c
  {
  }

  lemma {:induction false} ReplaceConcat(a: string, b: string, c: char, r: string)
    ensures Replace(a + b, c, r) == Replace(a, c, r) + Replace(b, c, r)
  {
    if a == "" {
      assert a + b == b;
      assert "" + Replace(b, c, r) == Replace(b, c, r);
    } else {
      ReplaceConcat(a[1..], b, c, r);
      assert (a + b)[0] == a[0] && (a + b)[1..] == a[1..] + b;
      var head := if a[0] == c then r else [a[0]];
      Associate(head, Replace(a[1..], c, r), Replace(b, c, r));
    }
  }

  lemma {:induction false} ReplaceAbsent(s: string, c: char, r: string)
    requires c !in s
    ensures Replace(s, c, r) == s
  {
    if s != "" {
      ReplaceAbsent(s[1..], c, r);
    }
  }

  /** Replacing after a one-pass map is the one-pass map with each image replaced. */
  lemma {:induction false} ReplaceAfter(s: string, t: Table, u: Table, c: char, r: string)
    requires forall x :: Image(u, x) == Replace(Image(t, x), c, r)
    ensures Replace(OnePass(s, t), c, r) == OnePass(s, u)
  {
    if s != "" {
      ReplaceAfter(s[1..], t, u, c, r);
      ReplaceConcat(Image(t, s[0]), OnePass(s[1..], t), c, r);
      assert Image(u, s[0]) == Replace(Image(t, s[0]), c, r);
    }
  }

  /** A replacement of a character no earlier image contains only adds an entry. */
  lemma ReplaceAdds(s: string, t: Table, c: char, r: string)
    requires c !in t && forall x :: x in t ==> c !in t[x]
    ensures Replace(OnePass(s, t), c, r) == OnePass(s, t[c := r])
  {
    forall x ensures Image(t[c := r], x) == Replace(Image(t, x), c, r) {
      if x == c {
        assert [c][1..] == "";
        assert Replace([c], c, r) == r + "";
      } else {
        ReplaceAbsent(Image(t, x), c, r);
      }
    }
    ReplaceAfter(s, t, t[c := r], c, r);
  }

  lemma {:induction false} NoTable(s: string)
    ensures OnePass(s, map[]) == s
  {
    if s != "" {
      NoTable(s[1..]);
      assert [s[0]] + s[1..] == s;
    }
  }

  /** The chain `_latex_escape` is a one-pass map, on every string. */
  lemma LatexEscapeIsOnePass(s: string)
    ensures LatexEscape(s) == OnePass(s, LATEX_TABLE)
  {
    hide OnePass, Replace;
    NoTable(s);
    var t1: Table := map[]['\\' := BACKSLASH];
    var t2 := t1['&' := "\\&"];
    var t3 := t2['%' := "\\%"];
    var t4 := t3['_' := "\\_"];
    ReplaceAdds(s, map[], '\\', BACKSLASH);
    ReplaceAdds(s, t1, '&', "\\&");
    ReplaceAdds(s, t2, '%', "\\%");
    ReplaceAdds(s, t3, '_', "\\_");
    ReplaceAdds(s, t4, '#', "\\#");
    assert t4['#' := "\\#"] == LATEX_TABLE;
  }

  lemma TexEscapeStartIsOnePass(s: string)
    ensures TexEscapeStart(s) == OnePass(s, START_TABLE)
  {
    hide OnePass, Replace;
    NoTable(s);
    var t1: Table := map[]['\\' := BACKSLASH];
    var t2 := t1['&' := "\\&"];
    var t3 := t2['%' := "\\%"];
    var t4 := t3['$' := "\\$"];
    var t5 := t4['#' := "\\#"];
    ReplaceAdds(s, map[], '\\', BACKSLASH);
    ReplaceAdds(s, t1, '&', "\\&");
    ReplaceAdds(s, t2, '%', "\\%");
    ReplaceAdds(s, t3, '$', "\\$");
    ReplaceAdds(s, t4, '#', "\\#");
    ReplaceAdds(s, t5, '_', "\\_");
    assert t5['_' := "\\_"] == START_TABLE;
  }

  lemma ReplaceOne(c: char, r: string)
    ensures Replace([c], c, r) == r
  {
    assert [c][1..] == "";
    assert Replace([c], c, r) == r + "";
  }

  /** A replaced image, taken apart around the one character that matches. */
  lemma ReplaceInside(a: string, b: string, c: char, r: string)
    requires c !in a && c !in b
    ensures Replace(a + [c] + b, c, r) == a + r + b
  {
    hide Replace;
    ReplaceConcat(a + [c], b, c, r);
    ReplaceConcat(a, [c], c, r);
    ReplaceAbsent(a, c, r);
    ReplaceAbsent(b, c, r);
    ReplaceOne(c, r);
  }

  /** What `_tex_escape` computes, on every string. */
  lemma TexEscapeIsOnePass(s: string)
    ensures TexEscape(s) == OnePass(s, ACTUAL_TABLE)
  {
    hide OnePass, Replace, TexEscapeStart;
    TexEscapeStartIsOnePass(s);
    var half := START_TABLE['\\' := "\\textbackslash\\{}"]['{' := "\\{"];
    forall x ensures Image(half, x) == Replace(Image(START_TABLE, x), '{', "\\{") {
      if x == '\\' {
        ReplaceInside("\\textbackslash", "}", '{', "\\{");
        assert "\\textbackslash" + ['{'] + "}" == BACKSLASH;
        assert "\\textbackslash" + "\\{" + "}" == half['\\'];
      } else if x == '{' {
        ReplaceInside("", "", '{', "\\{");
        assert "" + ['{'] + "" == ['{'] && "" + "\\{" + "" == "\\{";
      } else {
        ReplaceAbsent(Image(START_TABLE, x), '{', "\\{");
      }
    }
    ReplaceAfter(s, START_TABLE, half, '{', "\\{");
    forall x ensures Image(ACTUAL_TABLE, x) == Replace(Image(half, x), '}', "\\}") {
      if x == '\\' {
        ReplaceInside("\\textbackslash\\{", "", '}', "\\}");
        assert "\\textbackslash\\{" + ['}'] + "" == half['\\'];
        assert "\\textbackslash\\{" + "\\}" + "" == ACTUAL_TABLE['\\'];
      } else if x == '}' {
        ReplaceInside("", "", '}', "\\}");
        assert "" + ['}'] + "" == ['}'] && "" + "\\}" + "" == "\\}";
      } else {
        ReplaceAbsent(Image(half, x), '}', "\\}");
      }
    }
    ReplaceAfter(s, half, ACTUAL_TABLE, '}', "\\}");
  }

  function Backslashes(s: string): nat {
    if s == "" then 0 else (if s[0] == '\\' then 1 else 0) + Backslashes(s[1..])
  }

  lemma {:induction false} BackslashesPresent(s: string)
    ensures Backslashes(s) > 0 <==> '\\' in s
  {
    if s != "" {
      BackslashesPresent(s[1..]);
      assert forall x :: x in s <==> x == s[0] || x in s[1..];
    }
  }

  /** Every backslash costs the chain two characters more than the intended map. */
  lemma {:induction false} BackslashCost(s: string)
    ensures |OnePass(s, ACTUAL_TABLE)| == |OnePass(s, INTENDED_TABLE)| + 2 * Backslashes(s)
    ensures Backslashes(s) == 0 ==> OnePass(s, ACTUAL_TABLE) == OnePass(s, INTENDED_TABLE)
  {
    if s != "" {
      BackslashCost(s[1..]);
      assert s[0] != '\\' ==> Image(ACTUAL_TABLE, s[0]) == Image(INTENDED_TABLE, s[0]);
    }
  }

  /** The chain equals the replacements made at once exactly on strings without a backslash. */
  lemma TexEscapeFaithful(s: string)
    ensures TexEscape(s) == OnePass(s, INTENDED_TABLE) <==> '\\' !in s
  {
    hide OnePass;
    TexEscapeIsOnePass(s);
    BackslashCost(s);
    BackslashesPresent(s);
  }

  // ---- what LaTeX gets to see ----

  /** Each of these characters stands right behind a backslash. */
  ghost predicate Guarded(s: string, specials: set<char>) {
    forall i :: 0 <= i < |s| && s[i] in specials ==> i > 0 && s[i - 1] == '\\'
  }

  /** A one-pass map guards what each of its images guards. */
  lemma {:induction false} OnePassGuarded(s: string, t: Table, specials: set<char>)
    requires forall c :: Guarded(Image(t, c), specials)
    ensures Guarded(OnePass(s, t), specials)
  {
    if s != "" {
      OnePassGuarded(s[1..], t, specials);
      GuardedTogether(Image(t, s[0]), OnePass(s[1..], t), specials);
    }
  }

  lemma GuardedTogether(a: string, b: string, specials: set<char>)
    requires Guarded(a, specials) && Guarded(b, specials)
    ensures Guarded(a + b, specials)
  {
    var all := a + b;
    forall i | 0 <= i < |all| && all[i] in specials ensures i > 0 && all[i - 1] == '\\' {
      assert i >= |a| ==> b[i - |a|] in specials;
    }
  }

  lemma ImageGuarded(t: Table, c: char, specials: set<char>)
    requires c !in t ==> c !in specials
    requires c in t && t[c] != ['\\', c] ==> forall x :: x in specials ==> x !in t[c]
    requires '\\' !in specials
    ensures Guarded(Image(t, c), specials)
  {
  }

  /** The one-pass escaper leaves no special character bare, and no tilde or caret at all. */
  lemma TexSafe(s: string)
    ensures Guarded(Tex(s), {'&', '%', '$', '#', '_'})
    ensures '~' !in Tex(s) && '^' !in Tex(s)
  {
    hide OnePass, Guarded, Image;
    var specials := {'&', '%', '$', '#', '_'};
    forall c ensures Guarded(Image(TEX_TABLE, c), specials) {
      ImageGuarded(TEX_TABLE, c, specials);
    }
    OnePassGuarded(s, TEX_TABLE, specials);
    TildesGone();
    NeverWritten(s, TEX_TABLE, '~');
    NeverWritten(s, TEX_TABLE, '^');
  }

  lemma TildesGone()
    ensures forall c :: '~' !in Image(TEX_TABLE, c) && '^' !in Image(TEX_TABLE, c)
  {
  }

  lemma {:induction false} NeverWritten(s: string, t: Table, c: char)
    requires forall x :: c !in Image(t, x)
    ensures c !in OnePass(s, t)
  {
    if s != "" {
      NeverWritten(s[1..], t, c);
      assert c !in Image(t, s[0]);
    }
  }

  /** Neither do the chains; the longer one guards every brace as well, its own included. */
  lemma ChainsSafe(s: string)
    ensures Guarded(LatexEscape(s), {'&', '%', '_', '#'})
    ensures Guarded(TexEscape(s), {'&', '%', '$', '#', '_', '{', '}'})
  {
    hide OnePass, Guarded, Image, LatexEscape, TexEscape;
    LatexEscapeIsOnePass(s);
    TexEscapeIsOnePass(s);
    var few, many := {'&', '%', '_', '#'}, {'&', '%', '$', '#', '_', '{', '}'};
    forall c ensures Guarded(Image(LATEX_TABLE, c), few) {
      ImageGuarded(LATEX_TABLE, c, few);
    }
    OnePassGuarded(s, LATEX_TABLE, few);
    forall c ensures Guarded(Image(ACTUAL_TABLE, c), many) {
      if c == '\\' {
        BackslashGuarded(many);
      } else {
        ImageGuarded(ACTUAL_TABLE, c, many);
      }
    }
    OnePassGuarded(s, ACTUAL_TABLE, many);
  }

  lemma BackslashGuarded(specials: set<char>)
    requires specials == {'&', '%', '$', '#', '_', '{', '}'}
    ensures Guarded(Image(ACTUAL_TABLE, '\\'), specials)
  {
    var word := "\\textbackslash";
    assert Guarded(word, specials) by {
      assert forall x :: x in specials ==> x !in word;
    }
    GuardedTogether(word, "\\{", specials);
    GuardedTogether(word + "\\{", "\\}", specials);
    assert word + "\\{" + "\\}" == "\\textbackslash\\{\\}";
  }

  // ---- decoding ----

  /** No character's image starts another's. */
  ghost predicate PrefixFree(t: Table) {
    forall x, y :: x != y ==> !(Image(t, x) <= Image(t, y))
  }

  lemma PrefixOfConcat(a: string, b: string, c: string, d: string)
    requires a + b == c + d && |a| <= |c|
    ensures a <= c
  {
    assert (a + b)[..|a|] == a && (c + d)[..|a|] == c[..|a|];
  }

  lemma ConcatCancel(a: string, b: string, d: string)
    requires a + b == a + d
    ensures b == d
  {
    assert (a + b)[|a|..] == b && (a + d)[|a|..] == d;
  }

  /** A prefix-free escaper loses nothing: different texts escape differently. */
  lemma {:induction false} EscapeInjective(a: string, b: string, t: Table)
    requires PrefixFree(t) && forall x :: x in t ==> t[x] != ""
    requires OnePass(a, t) == OnePass(b, t)
    ensures a == b
  {
    if a != "" && b != "" {
      var x, y := Image(t, a[0]), Image(t, b[0]);
      if |x| <= |y| {
        PrefixOfConcat(x, OnePass(a[1..], t), y, OnePass(b[1..], t));
      } else {
        PrefixOfConcat(y, OnePass(b[1..], t), x, OnePass(a[1..], t));
      }
      assert a[0] == b[0];
      ConcatCancel(x, OnePass(a[1..], t), OnePass(b[1..], t));
      EscapeInjective(a[1..], b[1..], t);
      assert a == [a[0]] + a[1..] && b == [b[0]] + b[1..];
    }
  }

  /** Images that start with a backslash and then differ in their second character. */
  lemma SecondCharacterDecides(t: Table)
    requires '\\' in t && 't' !in t
    requires forall x :: x in t ==> |t[x]| >= 2 && t[x][0] == '\\' && t[x][1] == if x == '\\' then 't' else x
    ensures PrefixFree(t)
  {
  }

  /** Both chains lose nothing either, whatever they do to backslashes. */
  lemma ChainsInjective(a: string, b: string)
    ensures LatexEscape(a) == LatexEscape(b) ==> a == b
    ensures TexEscape(a) == TexEscape(b) ==> a == b
  {
    hide OnePass, LatexEscape, TexEscape, PrefixFree;
    LatexEscapeIsOnePass(a);
    LatexEscapeIsOnePass(b);
    TexEscapeIsOnePass(a);
    TexEscapeIsOnePass(b);
    SecondCharacterDecides(LATEX_TABLE);
    SecondCharacterDecides(ACTUAL_TABLE);
    if LatexEscape(a) == LatexEscape(b) {
      EscapeInjective(a, b, LATEX_TABLE);
    }
    if TexEscape(a) == TexEscape(b) {
      EscapeInjective(a, b, ACTUAL_TABLE);
    }
  }

  /** Reads one escaped character: the character and how much of the text it took. */
  function ReadOne(s: string): (r: Option<(char, nat)>)
    requires s != ""
    ensures r.Some? ==> 0 < r.value.1 <= |s|
  {
    if s[0] != '\\' then Some((s[0], 1))
    else if BACKSLASH <= s then Some(('\\', |BACKSLASH|))
    else if "\\textasciitilde{}" <= s then Some(('~', |"\\textasciitilde{}"|))
    else if "\\textasciicircum{}" <= s then Some(('^', |"\\textasciicircum{}"|))
    else if |s| > 1 && s[1] in "&%$#_{}" then Some((s[1], 2))
    else None
  }

  function Decode(s: string): Option<string> {
    if s == "" then Some("") else
      var one := ReadOne(s);
      if one.None? then None else
        var rest := Decode(s[one.value.1..]);
        if rest.None? then None else Some([one.value.0] + rest.value)
  }

  lemma ReadImage(c: char, rest: string)
    ensures Image(TEX_TABLE, c) + rest != ""
    ensures ReadOne(Image(TEX_TABLE, c) + rest) == Some((c, |Image(TEX_TABLE, c)|))
  {
    var image := Image(TEX_TABLE, c);
    var s := image + rest;
    assert forall i :: 0 <= i < |image| ==> s[i] == image[i];
    if c == '\\' || c == '~' || c == '^' {
      assert s[..|image|] == image;
      assert image[5] == s[5];
      assert c != '\\' ==> BACKSLASH[5] != s[5];
      assert c == '^' ==> image[10] != "\\textasciitilde{}"[10] && image[10] == s[10];
    } else if c in TEX_TABLE {
      assert |image| == 2 && image[1] == c;
      assert c != 't' && s[1] == c;
      assert BACKSLASH[1] == 't' == "\\textasciitilde{}"[1] == "\\textasciicircum{}"[1];
    }
  }

  /** Decoding an escaped text gives the text back. */
  lemma {:induction false} DecodeTex(s: string)
    ensures Decode(Tex(s)) == Some(s)
  {
    if s != "" {
      hide ReadOne;
      var image, rest := Image(TEX_TABLE, s[0]), OnePass(s[1..], TEX_TABLE);
      DecodeTex(s[1..]);
      ReadImage(s[0], rest);
      assert (image + rest)[|image|..] == rest;
      assert [s[0]] + s[1..] == s;
    }
  }
}
