/**
 * `CollapseHtml` of lib/track_changes/html.rb: every HTML tag or entity of a
 * text is replaced by one placeholder character, drawn from a per-instance
 * counter that starts at U+AC00 (the first Hangul syllable), and `expand`
 * substitutes the placeholders back. The tag regex is modelled as an explicit
 * left-to-right scanner.
 */
module TrackChangesHtml {
  import opened Wrappers
  import opened Sequences

  /** The first placeholder code point, U+AC00. */
  const FirstPlaceholder: int := 0xAC00

  /** The counter is kept below U+D800: from there on its code points are
      UTF-16 surrogates, which are not characters, so the placeholders would
      no longer be the contiguous run of characters from U+AC00. */
  const PlaceholderLimit: int := 0xD800

  // ---------------------------------------------------------------------------
  // Scanning for tags

  /** A piece of scanned text: a character copied as is, or a matched tag or entity. */
  datatype Piece = Text(c: char) | Tag(tag: string)

  /** The text a piece stands for. */
  function PieceText(p: Piece): string
  {
    match p
    case Text(c) => [c]
    case Tag(t) => t
  }

  /** The text a list of pieces stands for. */
  function Flatten(ps: seq<Piece>): string
  {
    if ps == [] then [] else PieceText(ps[0]) + Flatten(ps[1..])
  }

  /** What the tag pattern matches: `<`, no `>`, then `>`; or `&`, at least
      one character other than `;`, then `;`. */
  predicate IsTag(t: string)
  {
    || (|t| >= 2 && t[0] == '<' && t[|t| - 1] == '>' && forall k :: 1 <= k < |t| - 1 ==> t[k] != '>')
    || (|t| >= 3 && t[0] == '&' && t[|t| - 1] == ';' && forall k :: 1 <= k < |t| - 1 ==> t[k] != ';')
  }

  /** The first position at or after `from` holding `c`. */
  function Find(s: string, c: char, from: nat): (r: Option<nat>)
    ensures r.Some? ==> from <= r.value < |s| && s[r.value] == c
    ensures r.Some? ==> forall k :: from <= k < r.value ==> s[k] != c
    ensures r.None? ==> forall k :: from <= k < |s| ==> s[k] != c
    decreases |s| - from
  {
    if from >= |s| then None
    else if s[from] == c then Some(from)
    else Find(s, c, from + 1)
  }

  /** The end of the tag or entity starting at `i`, if the pattern matches there.
      At `<` the match runs to the first following `>` (which also covers the
      `/>` and `</` alternatives); at `&` it runs to the first following `;`,
      which must not be the very next character. */
  function TagAt(s: string, i: nat): (r: Option<nat>)
    requires i < |s|
    ensures r.Some? ==> i + 2 <= r.value <= |s|
  {
    if s[i] == '<' then
      match Find(s, '>', i + 1)
      case Some(e) => Some(e + 1)
      case None => None
    else if s[i] == '&' then
      match Find(s, ';', i + 1)
      case Some(e) => if e > i + 1 then Some(e + 1) else None
      case None => None
    else None
  }

  /** `TagAt` finds exactly the pattern's match at `i`: the one prefix of
      `s[i..]` that is a tag or entity, and none when no prefix is. */
  lemma TagAtIsMatch(s: string, i: nat)
    requires i < |s|
    ensures forall j :: i < j <= |s| ==> (IsTag(s[i..j]) <==> TagAt(s, i) == Some(j))
  {
    forall j | i < j <= |s| ensures IsTag(s[i..j]) <==> TagAt(s, i) == Some(j) {
      var t := s[i..j];
      assert forall k :: 0 <= k < |t| ==> t[k] == s[i + k];
    }
  }

  /** The scan of `s` from `i`: at each position a tag if one starts there,
      otherwise one character. Each piece consumes at least one character, and
      the scan goes on to the end. */
  function Tokens(s: string, i: nat): (r: seq<Piece>)
    requires i <= |s|
    ensures |r| <= |s| - i
    ensures r == [] <==> i == |s|
    decreases |s| - i
  {
    if i == |s| then []
    else
      match TagAt(s, i)
      case Some(j) => [Tag(s[i..j])] + Tokens(s, j)
      case None => [Text(s[i])] + Tokens(s, i + 1)
  }

  /** The scan loses and adds nothing: its pieces spell out `s[i..]`. */
  lemma {:induction false} TokensCover(s: string, i: nat)
    requires i <= |s|
    ensures Flatten(Tokens(s, i)) == s[i..]
    decreases |s| - i
  {
    if i < |s| {
      match TagAt(s, i)
      case Some(j) =>
        TokensCover(s, j);
        FlattenCons(Tag(s[i..j]), Tokens(s, j));
        SliceSplit(s, i, j);
      case None =>
        TokensCover(s, i + 1);
        FlattenCons(Text(s[i]), Tokens(s, i + 1));
        SliceCons(s, i);
    }
  }

  lemma FlattenCons(p: Piece, t: seq<Piece>)
    ensures Flatten([p] + t) == PieceText(p) + Flatten(t)
  {
    assert ([p] + t)[1..] == t;
  }

  /** One step of the scan. */
  lemma TokensStep(s: string, i: nat)
    requires i < |s|
    ensures TagAt(s, i).Some? ==> Tokens(s, i) == [Tag(s[i..TagAt(s, i).value])] + Tokens(s, TagAt(s, i).value)
    ensures TagAt(s, i).None? ==> Tokens(s, i) == [Text(s[i])] + Tokens(s, i + 1)
  {
  }

  /** Every tag piece of a scan is a match of the pattern. */
  lemma {:induction false} TokensAreTags(s: string, i: nat)
    requires i <= |s|
    ensures forall k :: 0 <= k < |Tokens(s, i)| && Tokens(s, i)[k].Tag? ==> IsTag(Tokens(s, i)[k].tag)
    decreases |s| - i
  {
    if i < |s| {
      TagAtIsMatch(s, i);
      match TagAt(s, i)
      case Some(j) => TokensAreTags(s, j);
      case None => TokensAreTags(s, i + 1);
    }
  }

  /** The scan of a whole text. */
  function Tokenize(s: string): (r: seq<Piece>)
    ensures |r| <= |s|
  {
    Tokens(s, 0)
  }

  // ---------------------------------------------------------------------------
  // The tag dictionary

  /** The collapser's state: tag to placeholder, placeholder to tag, and the
      code point of the next placeholder. */
  datatype Dictionary = Dictionary(tags: map<string, char>, chars: map<char, string>, next: int)
  {
    /** The two maps are inverse to each other, and the placeholders issued are
        exactly the code points from U+AC00 up to `next`, one per tag. */
    ghost predicate Coherent()
    {
      && FirstPlaceholder <= next <= PlaceholderLimit
      && (forall t :: t in tags ==> tags[t] in chars && chars[tags[t]] == t)
      && (forall c :: c in chars ==> chars[c] in tags && tags[chars[c]] == c)
      && (forall c :: c in chars ==> FirstPlaceholder <= c as int < next)
      && (forall c: char :: FirstPlaceholder <= c as int < next ==> c in chars)
      && |tags| == next - FirstPlaceholder == |chars|
    }
  }

  /** The state of a new collapser. */
  function Fresh(): (d: Dictionary)
    ensures d.Coherent() && d.tags == map[] && d.chars == map[]
  {
    Dictionary(map[], map[], FirstPlaceholder)
  }

  /** Every tag `d` knows, `e` knows with the same placeholder. */
  ghost predicate Extends(d: Dictionary, e: Dictionary)
  {
    forall t :: t in d.tags ==> t in e.tags && e.tags[t] == d.tags[t]
  }

  /** `push`: the placeholder for `tag`, issuing the next one if `tag` is new. */
  function Intern(d: Dictionary, tag: string): (r: (char, Dictionary))
    requires d.Coherent()
    requires tag !in d.tags ==> d.next < PlaceholderLimit
    ensures r.1.Coherent() && Extends(d, r.1)
    ensures tag in r.1.tags && r.1.tags[tag] == r.0 && r.1.chars[r.0] == tag
    ensures tag in d.tags ==> r.1 == d
    ensures tag !in d.tags ==>
      && r.0 as int == d.next && r.0 !in d.chars
      && r.1 == Dictionary(d.tags[tag := r.0], d.chars[r.0 := tag], d.next + 1)
  {
    if tag in d.tags then (d.tags[tag], d)
    else
      var c := d.next as char;
      AddEntryCoherent(d, tag);
      (c, Dictionary(d.tags[tag := c], d.chars[c := tag], d.next + 1))
  }

  /** Entering a new tag under the next placeholder keeps the dictionary coherent. */
  lemma AddEntryCoherent(d: Dictionary, tag: string)
    requires d.Coherent() && tag !in d.tags && d.next < PlaceholderLimit
    ensures d.next as char !in d.chars
    ensures Dictionary(d.tags[tag := d.next as char], d.chars[d.next as char := tag], d.next + 1).Coherent()
  {
    var c := d.next as char;
    assert c !in d.chars;
    var e := Dictionary(d.tags[tag := c], d.chars[c := tag], d.next + 1);
    AddEntryRange(d, c, tag, e.chars);
    AddEntryInverse(d, tag, c, e.tags, e.chars);
    assert |e.tags| == |d.tags| + 1 && |e.chars| == |d.chars| + 1;
  }

  /** The new entry's placeholder closes the run of issued placeholders. */
  lemma AddEntryRange(d: Dictionary, c: char, tag: string, chars: map<char, string>)
    requires d.Coherent() && d.next < PlaceholderLimit && c == d.next as char
    requires chars == d.chars[c := tag]
    ensures forall x: char :: FirstPlaceholder <= x as int < d.next + 1 ==> x in chars
    ensures forall x :: x in chars ==> FirstPlaceholder <= x as int < d.next + 1
  {
    forall x: char | FirstPlaceholder <= x as int < d.next + 1 ensures x in chars {
      if x as int < d.next { assert x in d.chars; } else { assert x == c; }
    }
  }

  /** The two maps stay inverse to each other after the new entry. */
  lemma AddEntryInverse(d: Dictionary, tag: string, c: char, tags: map<string, char>, chars: map<char, string>)
    requires d.Coherent() && tag !in d.tags && c !in d.chars
    requires tags == d.tags[tag := c] && chars == d.chars[c := tag]
    ensures forall t :: t in tags ==> tags[t] in chars && chars[tags[t]] == t
    ensures forall x :: x in chars ==> chars[x] in tags && tags[chars[x]] == x
  {
    forall t | t in tags ensures tags[t] in chars && chars[tags[t]] == t {
      if t != tag { assert d.tags[t] in d.chars && d.tags[t] != c; }
    }
    forall x | x in chars ensures chars[x] in tags && tags[chars[x]] == x {
      if x != c { assert d.chars[x] in d.tags && d.chars[x] != tag; }
    }
  }

  /** `piece` was collapsed to `c` under the dictionary `d`. */
  predicate Stands(p: Piece, c: char, d: Dictionary)
  {
    match p
    case Text(x) => c == x
    case Tag(t) => t in d.tags && d.tags[t] == c
  }

  /** The number of tags and entities among `ps`: the most placeholders
      collapsing them can issue. */
  function TagCount(ps: seq<Piece>): (n: nat)
    ensures n <= |ps|
    decreases |ps|
  {
    if ps == [] then 0 else TagCount(ps[..|ps| - 1]) + (if ps[|ps| - 1].Tag? then 1 else 0)
  }

  lemma TagCountSnoc(ps: seq<Piece>, p: Piece)
    ensures TagCount(ps + [p]) == TagCount(ps) + (if p.Tag? then 1 else 0)
  {
    TakeAppended(ps, p);
  }

  lemma {:induction false} TagCountAppend(ps: seq<Piece>, qs: seq<Piece>)
    ensures TagCount(ps + qs) == TagCount(ps) + TagCount(qs)
    decreases |qs|
  {
    if qs == [] {
      assert ps + qs == ps;
    } else {
      var init := qs[..|qs| - 1];
      var last := qs[|qs| - 1];
      TagCountAppend(ps, init);
      TakeOneMore(qs, |qs| - 1);
      TakeAll(qs);
      AppendSnoc(ps, init, last);
      TagCountSnoc(ps + init, last);
    }
  }

  lemma TagCountPrefix(ps: seq<Piece>, k: nat)
    requires k <= |ps|
    ensures TagCount(ps[..k]) <= TagCount(ps)
  {
    TagCountAppend(ps[..k], ps[k..]);
    assert ps[..k] + ps[k..] == ps;
  }

  /** One more piece of a prefix, and the tags it adds. */
  lemma TagCountStep(ps: seq<Piece>, k: nat)
    requires k < |ps|
    ensures ps[..k + 1] == ps[..k] + [ps[k]]
    ensures TagCount(ps[..k + 1]) == TagCount(ps[..k]) + (if ps[k].Tag? then 1 else 0)
    ensures TagCount(ps[..k + 1]) <= TagCount(ps)
  {
    TakeOneMore(ps, k);
    TagCountSnoc(ps[..k], ps[k]);
    TagCountPrefix(ps, k + 1);
  }

  /** `collapse` over scanned pieces: the output and the dictionary afterwards,
      tags interned from left to right. */
  function CollapsePieces(d: Dictionary, ps: seq<Piece>): (r: (string, Dictionary))
    requires d.Coherent() && d.next + TagCount(ps) <= PlaceholderLimit
    ensures r.1.Coherent()
    ensures d.next <= r.1.next <= d.next + TagCount(ps)
    ensures |r.0| == |ps|
    decreases |ps|
  {
    if ps == [] then ([], d)
    else
      var (out, d1) := CollapsePieces(d, ps[..|ps| - 1]);
      match ps[|ps| - 1]
      case Text(x) => (out + [x], d1)
      case Tag(t) => var (c, d2) := Intern(d1, t); (out + [c], d2)
  }

  /** Collapsing one more piece: the placeholder of the piece is appended. */
  lemma CollapseSnoc(d: Dictionary, ps: seq<Piece>, p: Piece)
    requires d.Coherent() && d.next + TagCount(ps) + (if p.Tag? then 1 else 0) <= PlaceholderLimit
    ensures TagCount(ps + [p]) == TagCount(ps) + (if p.Tag? then 1 else 0)
    ensures var (out, d1) := CollapsePieces(d, ps);
            CollapsePieces(d, ps + [p]) ==
              match p
              case Text(x) => (out + [x], d1)
              case Tag(t) => var (c, d2) := Intern(d1, t); (out + [c], d2)
  {
    TakeAppended(ps, p);
    TagCountSnoc(ps, p);
  }

  /** The collapsed text stands piece by piece for its input: a character for
      itself, a tag for its placeholder in the final dictionary, which keeps
      every tag the starting dictionary knew. */
  lemma {:induction false} CollapseStands(d: Dictionary, ps: seq<Piece>)
    requires d.Coherent() && d.next + TagCount(ps) <= PlaceholderLimit
    ensures var (out, e) := CollapsePieces(d, ps);
            && Extends(d, e)
            && forall k :: 0 <= k < |ps| ==> Stands(ps[k], out[k], e)
    decreases |ps|
  {
    if ps != [] {
      var init := ps[..|ps| - 1];
      var last := ps[|ps| - 1];
      LastSplit(ps);
      CollapseStands(d, init);
      CollapseSnoc(d, init, last);
      var (out, d1) := CollapsePieces(d, init);
      match last
      case Text(x) =>
        CollapseStep(d, init, out, d1, last, x, d1);
      case Tag(t) =>
        var (c, d2) := Intern(d1, t);
        CollapseStep(d, init, out, d1, last, c, d2);
    }
  }

  /** One more piece on top of a collapsed prefix keeps the promises of `CollapseStands`. */
  lemma CollapseStep(d: Dictionary, init: seq<Piece>, out: string, d1: Dictionary, p: Piece, c: char, d2: Dictionary)
    requires Extends(d, d1) && Extends(d1, d2)
    requires |out| == |init|
    requires forall k :: 0 <= k < |init| ==> Stands(init[k], out[k], d1)
    requires Stands(p, c, d2)
    ensures Extends(d, d2)
    ensures forall k :: 0 <= k < |init + [p]| ==> Stands((init + [p])[k], (out + [c])[k], d2)
  {
    forall k | 0 <= k < |init + [p]| ensures Stands((init + [p])[k], (out + [c])[k], d2) {
      if k < |init| {
        assert Stands(init[k], out[k], d1);
      }
    }
  }

  /** Collapsing one more tag: its placeholder, as `push` gives it, is appended. */
  lemma CollapseTagStep(d: Dictionary, ps: seq<Piece>, out: string, e: Dictionary, t: string, c: char, e1: Dictionary)
    requires d.Coherent() && d.next + TagCount(ps) < PlaceholderLimit
    requires CollapsePieces(d, ps) == (out, e)
    requires (c, e1) == Intern(e, t)
    ensures TagCount(ps + [Tag(t)]) == TagCount(ps) + 1
    ensures CollapsePieces(d, ps + [Tag(t)]) == (out + [c], e1)
  {
    CollapseSnoc(d, ps, Tag(t));
  }

  // ---------------------------------------------------------------------------
  // Expanding

  /** Every occurrence of `c` replaced by `t`, taken literally: what
      `gsub!(c, t)` evidently means to do (see `Gsub` for what it does with a
      backslash in `t`). Nothing else is changed or added. */
  function ReplaceAll(s: string, c: char, t: string): (r: string)
    ensures c !in t ==> c !in r
    ensures forall x :: x in r ==> x in t || (x in s && x != c)
  {
    if s == [] then [] else (if s[0] == c then t else [s[0]]) + ReplaceAll(s[1..], c, t)
  }

  /** Every character that `m` has an entry for replaced by that entry, all at once. */
  function Substitute(s: string, m: map<char, string>): string
  {
    if s == [] then [] else (if s[0] in m then m[s[0]] else [s[0]]) + Substitute(s[1..], m)
  }

  /** The entries of `m` for code points below `n`. */
  function Below(m: map<char, string>, n: int): map<char, string>
  {
    map c | c in m && c as int < n :: m[c]
  }

  /** No character of `s` that `m` replaces expands to text that `m` would
      replace again. */
  ghost predicate Plain(s: string, m: map<char, string>)
  {
    forall k, j :: 0 <= k < |s| && s[k] in m && 0 <= j < |m[s[k]]| ==> m[s[k]][j] !in m
  }

  /** No tag that `d` has recorded holds one of its placeholders. */
  ghost predicate TagsFree(d: Dictionary)
  {
    forall c, x :: c in d.chars && x in d.chars[c] ==> x !in d.chars
  }

  /** `expand`'s loop: the placeholders from `n` on, each replaced in turn in
      the order they were issued (the order `@chars` was filled in). When no
      tag holds a placeholder, none of them is left in the result, and every
      placeholder the result holds comes from `s`. */
  function ExpandInOrder(s: string, d: Dictionary, n: int): (r: string)
    requires d.Coherent() && FirstPlaceholder <= n <= d.next
    ensures TagsFree(d) ==> forall x :: x in r && x in d.chars ==> x in s && x as int < n
    decreases d.next - n
  {
    if n == d.next then s
    else
      var c := n as char;
      assert c in d.chars;
      var s1 := ReplaceAll(s, c, d.chars[c]);
      var r := ExpandInOrder(s1, d, n + 1);
      assert TagsFree(d) ==> forall x :: x in r && x in d.chars ==> x in s && x as int < n by {
        if TagsFree(d) {
          forall x | x in r && x in d.chars ensures x in s && x as int < n {
            assert x in s1 && x as int < n + 1;
            assert x !in d.chars[c];
          }
        }
      }
      r
  }

  lemma {:induction false} ReplaceAllAppend(a: string, b: string, c: char, t: string)
    ensures ReplaceAll(a + b, c, t) == ReplaceAll(a, c, t) + ReplaceAll(b, c, t)
  {
    if a == [] {
      assert a + b == b;
    } else {
      assert (a + b)[0] == a[0] && (a + b)[1..] == a[1..] + b;
      ReplaceAllAppend(a[1..], b, c, t);
    }
  }

  /** `ReplaceAll` is fixed by what it does to one character and by how it
      treats concatenation: the character `c` becomes `t`, any other character
      stays as it is, and the text is replaced piece by piece. */
  lemma ReplaceAllCharacterised(a: string, b: string, c: char, t: string, x: char)
    ensures ReplaceAll([], c, t) == []
    ensures ReplaceAll([c], c, t) == t
    ensures x != c ==> ReplaceAll([x], c, t) == [x]
    ensures ReplaceAll(a + b, c, t) == ReplaceAll(a, c, t) + ReplaceAll(b, c, t)
  {
    assert [c][1..] == [] && [x][1..] == [];
    ReplaceAllAppend(a, b, c, t);
  }

  lemma {:induction false} ReplaceAllAbsent(s: string, c: char, t: string)
    requires c !in s
    ensures ReplaceAll(s, c, t) == s
  {
    if s != [] {
      ReplaceAllAbsent(s[1..], c, t);
    }
  }

  /** Replacing one more character after a substitution that never produces
      it is the same as substituting with the larger map. */
  lemma {:induction false} ReplaceAfterSubstitute(s: string, m: map<char, string>, c: char, t: string)
    requires c !in m
    requires forall k :: 0 <= k < |s| && s[k] in m ==> c !in m[s[k]]
    ensures ReplaceAll(Substitute(s, m), c, t) == Substitute(s, m[c := t])
  {
    if s != [] {
      var head := if s[0] in m then m[s[0]] else [s[0]];
      ReplaceAllAppend(head, Substitute(s[1..], m), c, t);
      if s[0] in m {
        ReplaceAllAbsent(head, c, t);
      }
      ReplaceAfterSubstitute(s[1..], m, c, t);
    }
  }

  lemma {:induction false} SubstituteNothing(s: string, m: map<char, string>)
    requires forall k :: 0 <= k < |s| ==> s[k] !in m
    ensures Substitute(s, m) == s
  {
    if s != [] {
      SubstituteNothing(s[1..], m);
    }
  }

  /** For text whose placeholders expand to placeholder-free tags, the ordered
      replacements amount to one simultaneous substitution. */
  lemma {:induction false} ExpandInOrderSubstitutes(s: string, d: Dictionary, n: int)
    requires d.Coherent() && FirstPlaceholder <= n <= d.next
    requires Plain(s, d.chars)
    ensures ExpandInOrder(Substitute(s, Below(d.chars, n)), d, n) == Substitute(s, d.chars)
    decreases d.next - n
  {
    if n == d.next {
      assert Below(d.chars, n) == d.chars;
    } else {
      var c := n as char;
      assert c in d.chars;
      var m := Below(d.chars, n);
      ReplaceAfterSubstitute(s, m, c, d.chars[c]);
      assert m[c := d.chars[c]] == Below(d.chars, n + 1);
      ExpandInOrderSubstitutes(s, d, n + 1);
    }
  }

  /** The whole of `expand` on such text is that substitution. */
  lemma ExpandIsSubstitute(s: string, d: Dictionary)
    requires d.Coherent() && Plain(s, d.chars)
    ensures ExpandInOrder(s, d, FirstPlaceholder) == Substitute(s, d.chars)
  {
    assert Below(d.chars, FirstPlaceholder) == map[];
    SubstituteNothing(s, map[]);
    ExpandInOrderSubstitutes(s, d, FirstPlaceholder);
  }

  // ---------------------------------------------------------------------------
  // Ruby's replacement strings

  /** What a backslash followed by `c` turns into in a Ruby replacement string,
      at a match of `matched` between `before` and `after`: `\0` and `\&` give
      the match, `\`` the text before it, `\'` the text after it, `\\` one
      backslash, and `\1` to `\9` and `\+` (the last group) nothing, since a
      string pattern has no groups. Any other character keeps its backslash.
      Nothing is invented: every character given comes from the text around
      the match, from the match, or from the escape itself. */
  function Escape(c: char, before: string, matched: string, after: string): (r: string)
    ensures forall x :: x in r ==> x in before || x in matched || x in after || x == '\\' || x == c
  {
    if c == '0' || c == '&' then matched
    else if c == '`' then before
    else if c == '\'' then after
    else if c == '\\' then ['\\']
    else if '1' <= c <= '9' || c == '+' then []
    else ['\\', c]
  }

  /** The text the replacement string `repl` stands for at one match. A text
      without a backslash stands for itself, and no text holds a character
      that is in neither the replacement nor the text around the match. */
  function Interpolate(repl: string, before: string, matched: string, after: string): (r: string)
    ensures '\\' !in repl ==> r == repl
    ensures forall x :: x in r ==> x in repl || x in before || x in matched || x in after
    decreases |repl|
  {
    if repl == [] then []
    else if repl[0] == '\\' && |repl| >= 2 then
      Escape(repl[1], before, matched, after) + Interpolate(repl[2..], before, matched, after)
    else [repl[0]] + Interpolate(repl[1..], before, matched, after)
  }

  /** `s.gsub(c, repl)` from position `i` on, for a one-character pattern: each
      occurrence of `c` replaced by `repl` interpolated at that match, with the
      text before and after the match taken from `s` as it was. Without an
      occurrence the text is unchanged, and every character of the result
      comes from the text or from the replacement. */
  function GsubFrom(s: string, c: char, repl: string, i: nat): (r: string)
    requires i <= |s|
    ensures c !in s[i..] ==> r == s[i..]
    ensures forall x :: x in r ==> x in s || x in repl
    decreases |s| - i
  {
    if i == |s| then []
    else
      assert s[i..] == [s[i]] + s[i + 1..];
      (if s[i] == c then Interpolate(repl, s[..i], [c], s[i + 1..]) else [s[i]]) + GsubFrom(s, c, repl, i + 1)
  }

  /** Ruby's `gsub!(c, repl)` with a one-character string pattern: a text
      without `c` is left as it is, and nothing but characters of the text and
      of the replacement can appear. */
  function Gsub(s: string, c: char, repl: string): (r: string)
    ensures c !in s ==> r == s
    ensures forall x :: x in r ==> x in s || x in repl
  {
    assert s[0..] == s;
    GsubFrom(s, c, repl, 0)
  }

  lemma {:induction false} GsubFromLiteral(s: string, c: char, t: string, i: nat)
    requires i <= |s| && '\\' !in t
    ensures GsubFrom(s, c, t, i) == ReplaceAll(s[i..], c, t)
    decreases |s| - i
  {
    if i < |s| {
      GsubFromLiteral(s, c, t, i + 1);
      assert s[i..][0] == s[i] && s[i..][1..] == s[i + 1..];
    }
  }

  /** With a replacement free of backslashes, `gsub!` replaces literally. */
  lemma GsubLiteral(s: string, c: char, t: string)
    requires '\\' !in t
    ensures Gsub(s, c, t) == ReplaceAll(s, c, t)
  {
    GsubFromLiteral(s, c, t, 0);
    assert s[0..] == s;
  }

  /** No tag that `d` has recorded holds a backslash. */
  ghost predicate LiteralTags(d: Dictionary)
  {
    forall c :: c in d.chars ==> '\\' !in d.chars[c]
  }

  /** `expand`'s loop as the source writes it: `html.gsub!(char, tag)` for each
      placeholder in the order issued, the tag read as a replacement string.
      Text holding none of the placeholders passes through unchanged. */
  function GsubInOrder(s: string, d: Dictionary, n: int): (r: string)
    requires d.Coherent() && FirstPlaceholder <= n <= d.next
    ensures (forall x :: x in s ==> x !in d.chars) ==> r == s
    decreases d.next - n
  {
    if n == d.next then s
    else
      var c := n as char;
      assert c in d.chars;
      GsubInOrder(Gsub(s, c, d.chars[c]), d, n + 1)
  }

  /** When no tag holds a backslash, the source's loop is the literal expansion. */
  lemma {:induction false} GsubInOrderLiteral(s: string, d: Dictionary, n: int)
    requires d.Coherent() && FirstPlaceholder <= n <= d.next && LiteralTags(d)
    ensures GsubInOrder(s, d, n) == ExpandInOrder(s, d, n)
    decreases d.next - n
  {
    if n < d.next {
      var c := n as char;
      assert c in d.chars;
      GsubLiteral(s, c, d.chars[c]);
      GsubInOrderLiteral(ReplaceAll(s, c, d.chars[c]), d, n + 1);
    }
  }

  // ---------------------------------------------------------------------------
  // Round trip

  /** No character of `s` is a placeholder `d` has issued. */
  ghost predicate NoPlaceholders(s: string, d: Dictionary)
  {
    forall k :: 0 <= k < |s| ==> s[k] !in d.chars
  }

  lemma {:induction false} SubstitutePieces(ps: seq<Piece>, out: string, d: Dictionary)
    requires d.Coherent() && |out| == |ps|
    requires forall k :: 0 <= k < |ps| ==> Stands(ps[k], out[k], d)
    requires NoPlaceholders(Flatten(ps), d)
    ensures Substitute(out, d.chars) == Flatten(ps)
    ensures Plain(out, d.chars)
  {
    if ps != [] {
      var head := PieceText(ps[0]);
      assert Flatten(ps) == head + Flatten(ps[1..]);
      assert forall k :: 0 <= k < |head| ==> head[k] == Flatten(ps)[k];
      assert forall k :: 0 <= k < |Flatten(ps[1..])| ==> Flatten(ps[1..])[k] == Flatten(ps)[|head| + k];
      assert Stands(ps[0], out[0], d);
      SubstitutePieces(ps[1..], out[1..], d);
      forall k, j | 0 <= k < |out| && out[k] in d.chars && 0 <= j < |d.chars[out[k]]|
        ensures d.chars[out[k]][j] !in d.chars
      {
        if k > 0 {
          assert out[k] == out[1..][k - 1];
        }
      }
    }
  }

  /** `expand(collapse(s)) == s` on one dictionary, when `s` holds none of the
      placeholders the dictionary has issued once `s` is collapsed. */
  lemma CollapseThenExpand(d: Dictionary, s: string)
    requires d.Coherent() && d.next + TagCount(Tokenize(s)) <= PlaceholderLimit
    requires NoPlaceholders(s, CollapsePieces(d, Tokenize(s)).1)
    ensures var (out, e) := CollapsePieces(d, Tokenize(s));
            Substitute(out, e.chars) == s && ExpandInOrder(out, e, FirstPlaceholder) == s
  {
    var ps := Tokenize(s);
    var (out, e) := CollapsePieces(d, ps);
    TokensCover(s, 0);
    assert s[0..] == s;
    CollapseStands(d, ps);
    SubstitutePieces(ps, out, e);
    ExpandIsSubstitute(out, e);
  }

  /** The source's own `expand`, with its tags read as replacement strings,
      completes the same round trip when no recorded tag holds a backslash. */
  lemma CollapseThenExpandAsWritten(d: Dictionary, s: string)
    requires d.Coherent() && d.next + TagCount(Tokenize(s)) <= PlaceholderLimit
    requires NoPlaceholders(s, CollapsePieces(d, Tokenize(s)).1)
    requires LiteralTags(CollapsePieces(d, Tokenize(s)).1)
    ensures var (out, e) := CollapsePieces(d, Tokenize(s));
            GsubInOrder(out, e, FirstPlaceholder) == s
  {
    var (out, e) := CollapsePieces(d, Tokenize(s));
    CollapseThenExpand(d, s);
    GsubInOrderLiteral(out, e, FirstPlaceholder);
  }

  // ---------------------------------------------------------------------------
  // The collapser object

  class CollapseHtml {
    var tags: map<string, char>
    var chars: map<char, string>
    var currentHash: int

    function State(): Dictionary
      reads this
    {
      Dictionary(tags, chars, currentHash)
    }

    ghost predicate Valid()
      reads this
    {
      State().Coherent()
    }

    constructor ()
      ensures Valid() && State() == Fresh()
      ensures tags == map[] && chars == map[] && currentHash == 0xAC00
    {
      chars := map[];
      tags := map[];
      currentHash := 44032;
    }

    /** `collapse`: every tag and entity replaced by its placeholder, all other
        characters kept in order. The matches are found left to right by the
        scan, and each one is handed to `push`, as `gsub` does with its block. */
    method Collapse(html: string) returns (r: string)
      requires Valid() && currentHash + TagCount(Tokenize(html)) <= PlaceholderLimit
      modifies this
      ensures Valid() && Extends(old(State()), State())
      ensures (r, State()) == CollapsePieces(old(State()), Tokenize(html))
    {
      var pieces := Tokenize(html);
      ghost var start := State();
      r := [];
      for k := 0 to |pieces|
        invariant start.Coherent() && start.next + TagCount(pieces) <= PlaceholderLimit
        invariant TagCount(pieces[..k]) <= TagCount(pieces)
        invariant (r, State()) == CollapsePieces(start, pieces[..k])
      {
        TagCountStep(pieces, k);
        match pieces[k]
        case Tag(tag) =>
          ghost var before := State();
          var c := Push(tag);
          CollapseTagStep(start, pieces[..k], r, before, tag, c, State());
          r := r + [c];
        case Text(x) =>
          CollapseSnocText(start, pieces[..k], x, r, State());
          r := r + [x];
      }
      TakeAll(pieces);
      assert (r, State()) == CollapsePieces(start, pieces);
      CollapseStands(start, pieces);
      assert Valid() && Extends(start, State());
    }

    /** `expand`: each issued placeholder, in the order issued, replaced by its tag. */
    method Expand(text: string) returns (r: string)
      requires Valid()
      ensures r == ExpandInOrder(text, State(), FirstPlaceholder)
      ensures LiteralTags(State()) ==> r == GsubInOrder(text, State(), FirstPlaceholder)
      ensures Plain(text, chars) ==> r == Substitute(text, chars)
      ensures NoPlaceholders(text, State()) ==> r == text
    {
      r := text;
      var n := FirstPlaceholder;
      while n < currentHash
        invariant FirstPlaceholder <= n <= currentHash
        invariant ExpandInOrder(text, State(), FirstPlaceholder) == ExpandInOrder(r, State(), n)
      {
        var c := n as char;
        assert c in chars;
        r := ReplaceAll(r, c, chars[c]);
        n := n + 1;
      }
      if Plain(text, chars) {
        ExpandIsSubstitute(text, State());
      }
      if NoPlaceholders(text, State()) {
        SubstituteNothing(text, chars);
      }
      if LiteralTags(State()) {
        GsubInOrderLiteral(text, State(), FirstPlaceholder);
      }
    }

    /** `push`: the placeholder of an already seen tag, or the next one, recorded both ways. */
    method Push(tag: string) returns (c: char)
      requires Valid()
      requires tag !in tags ==> currentHash < PlaceholderLimit
      modifies this
      ensures Valid()
      ensures (c, State()) == Intern(old(State()), tag)
      ensures old(tag in tags) ==> c == old(tags[tag]) && State() == old(State())
      ensures old(tag !in tags) ==>
        && c as int == old(currentHash) && currentHash == old(currentHash) + 1
        && tags == old(tags)[tag := c] && chars == old(chars)[c := tag]
    {
      if tag in tags {
        c := tags[tag];
      } else {
        c := currentHash as char;
        tags := tags[tag := c];
        chars := chars[c := tag];
        currentHash := currentHash + 1;
        assert (c, State()) == Intern(old(State()), tag);
      }
    }
  }

  /** Collapsing pieces whose tags are all known issues nothing new. */
  lemma {:induction false} CollapseKnown(d: Dictionary, ps: seq<Piece>)
    requires d.Coherent() && d.next + TagCount(ps) <= PlaceholderLimit
    requires forall k :: 0 <= k < |ps| && ps[k].Tag? ==> ps[k].tag in d.tags
    ensures CollapsePieces(d, ps).1 == d
    decreases |ps|
  {
    if ps != [] {
      var init := ps[..|ps| - 1];
      LastSplit(ps);
      CollapseKnown(d, init);
      CollapseSnoc(d, init, ps[|ps| - 1]);
    }
  }

  /** Collapsing a text a second time on the same collapser gives the same
      placeholders again and leaves the dictionary as the first pass left it. */
  lemma CollapseTwice(d: Dictionary, s: string)
    requires d.Coherent() && d.next + 2 * TagCount(Tokenize(s)) <= PlaceholderLimit
    ensures var (out, e) := CollapsePieces(d, Tokenize(s));
            CollapsePieces(e, Tokenize(s)) == (out, e)
  {
    CollapsePiecesTwice(d, Tokenize(s));
  }

  /** Collapsing pieces one part after the other, the second part on the
      dictionary the first leaves, is collapsing them all at once: the matches
      are handed to `push` strictly from left to right. */
  lemma {:induction false} CollapseAppend(d: Dictionary, ps: seq<Piece>, qs: seq<Piece>)
    requires d.Coherent() && d.next + TagCount(ps) + TagCount(qs) <= PlaceholderLimit
    ensures TagCount(ps + qs) == TagCount(ps) + TagCount(qs)
    ensures var (out1, e1) := CollapsePieces(d, ps);
            var (out2, e2) := CollapsePieces(e1, qs);
            CollapsePieces(d, ps + qs) == (out1 + out2, e2)
    decreases |qs|
  {
    TagCountAppend(ps, qs);
    var (out1, e1) := CollapsePieces(d, ps);
    if qs == [] {
      assert ps + qs == ps;
      assert out1 + [] == out1;
    } else {
      var init := qs[..|qs| - 1];
      var last := qs[|qs| - 1];
      CollapseAppend(d, ps, init);
      TakeOneMore(qs, |qs| - 1);
      TakeAll(qs);
      AppendSnoc(ps, init, last);
      CollapseSnoc(d, ps + init, last);
      CollapseSnoc(e1, init, last);
      var out2 := CollapsePieces(e1, init).0;
      var c := CollapsePieces(e1, qs).0[|qs| - 1];
      AppendSnoc(out1, out2, c);
    }
  }

  lemma CollapsePiecesTwice(d: Dictionary, ps: seq<Piece>)
    requires d.Coherent() && d.next + 2 * TagCount(ps) <= PlaceholderLimit
    ensures var (out, e) := CollapsePieces(d, ps);
            e.next + TagCount(ps) <= PlaceholderLimit && CollapsePieces(e, ps) == (out, e)
  {
    var r := CollapsePieces(d, ps);
    var out, e := r.0, r.1;
    CollapseStands(d, ps);
    assert forall k :: 0 <= k < |ps| ==> Stands(ps[k], out[k], e);
    assert forall k :: 0 <= k < |ps| && ps[k].Tag? ==> ps[k].tag in e.tags by {
      forall k | 0 <= k < |ps| && ps[k].Tag? ensures ps[k].tag in e.tags {
        assert Stands(ps[k], out[k], e);
      }
    }
    CollapseKnown(e, ps);
    CollapseStands(e, ps);
    var r2 := CollapsePieces(e, ps);
    forall k | 0 <= k < |ps| ensures r2.0[k] == out[k] {
      assert Stands(ps[k], out[k], e) && Stands(ps[k], r2.0[k], e);
    }
    assert r2.0 == out;
  }

  // ---------------------------------------------------------------------------
  // Examples

  /** The scan takes a tag wherever one starts. */
  lemma TokensAtTag(s: string, i: nat, j: nat)
    requires i < j <= |s| && IsTag(s[i..j])
    ensures Tokens(s, i) == [Tag(s[i..j])] + Tokens(s, j)
  {
    TagAtIsMatch(s, i);
  }

  /** The scan copies a character that cannot start a tag. */
  lemma TokensAtText(s: string, i: nat)
    requires i < |s| && s[i] != '<' && s[i] != '&'
    ensures Tokens(s, i) == [Text(s[i])] + Tokens(s, i + 1)
  {
  }

  /** "<a>bcd</a>" scans as two tags around three characters. */
  lemma TokenizeSimpleTag(s: string)
    requires s == "<a>bcd</a>"
    ensures Tokenize(s) == [Tag("<a>"), Text('b'), Text('c'), Text('d'), Tag("</a>")]
  {
    SliceOfThree(s, 0, '<', 'a', '>');
    SliceOfFour(s, 6, '<', '/', 'a', '>');
    TokensSimpleTail(s);
    assert IsTag("<a>");
    TokensAtTag(s, 0, 3);
    Concat1And4(Tag("<a>"), Text('b'), Text('c'), Text('d'), Tag("</a>"));
  }

  /** The tail of "<a>bcd</a>" after the opening tag. */
  lemma TokensSimpleTail(s: string)
    requires |s| == 10 && s[3] == 'b' && s[4] == 'c' && s[5] == 'd' && s[6..10] == "</a>"
    ensures Tokens(s, 3) == [Text('b'), Text('c'), Text('d'), Tag("</a>")]
  {
    assert IsTag("</a>");
    TokensAtTag(s, 6, 10);
    TokensAtText(s, 5);
    TokensAtText(s, 4);
    TokensAtText(s, 3);
    ConsFourEnd(Text('b'), Text('c'), Text('d'), Tag("</a>"));
  }

  /** Collapsing one more plain character appends it and keeps the dictionary. */
  lemma CollapseSnocText(d: Dictionary, ps: seq<Piece>, x: char, out: string, e: Dictionary)
    requires d.Coherent() && d.next + TagCount(ps) <= PlaceholderLimit
    requires CollapsePieces(d, ps) == (out, e)
    ensures TagCount(ps + [Text(x)]) == TagCount(ps)
    ensures CollapsePieces(d, ps + [Text(x)]) == (out + [x], e)
  {
    CollapseSnoc(d, ps, Text(x));
  }

  /** A collapser that knows no tag turns "<a>" "bcd" "</a>" into its next two
      placeholders around "bcd". */
  lemma CollapseTwoTags(d: Dictionary, a: string, b: string, x: char, y: char, z: char)
    requires d.Coherent() && d.tags == map[] && d.next + 5 < PlaceholderLimit && a != b
    ensures var out := CollapsePieces(d, [Tag(a), Text(x), Text(y), Text(z), Tag(b)]).0;
            out == [d.next as char, x, y, z, (d.next + 1) as char]
  {
    var ps := [Tag(a), Text(x), Text(y)];
    var e := Intern(d, a).1;
    CollapseOpening(d, a, x, y);
    assert e.tags == map[a := d.next as char] && e.next == d.next + 1;
    CollapseTextTag(d, ps, [d.next as char, x, y], e, z, b);
    Concat3And2(Tag(a), Text(x), Text(y), Text(z), Tag(b));
    Concat3And2(d.next as char, x, y, z, e.next as char);
  }

  /** A fresh collapser turns "<a>bcd</a>" into U+AC00 "bcd" U+AC01. */
  lemma CollapseSimpleTag(s: string)
    requires s == "<a>bcd</a>"
    ensures CollapsePieces(Fresh(), Tokenize(s)).0 == "\U{AC00}bcd\U{AC01}"
  {
    TokenizeSimpleTag(s);
    CollapseTwoTags(Fresh(), "<a>", "</a>", 'b', 'c', 'd');
  }

  /** The tail of "<a>bc&nbsp;d</a>" from the entity on. */
  lemma TokensEntityTail(s: string)
    requires |s| == 16 && s[5..11] == "&nbsp;" && s[11] == 'd' && s[12..16] == "</a>"
    ensures Tokens(s, 5) == [Tag("&nbsp;"), Text('d'), Tag("</a>")]
  {
    assert IsTag("</a>") && IsTag("&nbsp;");
    TokensAtTag(s, 12, 16);
    TokensAtText(s, 11);
    TokensAtTag(s, 5, 11);
    ConsThreeEnd(Tag("&nbsp;"), Text('d'), Tag("</a>"));
  }

  /** Where the pieces of "<a>bc&nbsp;d</a>" lie. */
  lemma EntityLayout(s: string)
    requires s == "<a>bc&nbsp;d</a>"
    ensures |s| == 16 && s[0..3] == "<a>" && s[3] == 'b' && s[4] == 'c'
    ensures s[5..11] == "&nbsp;" && s[11] == 'd' && s[12..16] == "</a>"
  {
    SliceOfThree(s, 0, '<', 'a', '>');
    SliceOfSix(s, 5, '&', 'n', 'b', 's', 'p', ';');
    SliceOfFour(s, 12, '<', '/', 'a', '>');
  }

  /** "<a>bc&nbsp;d</a>" scans as a tag, two characters, an entity, a character and a tag. */
  lemma TokenizeEntity(s: string)
    requires s == "<a>bc&nbsp;d</a>"
    ensures Tokenize(s) == [Tag("<a>"), Text('b'), Text('c'), Tag("&nbsp;"), Text('d'), Tag("</a>")]
  {
    EntityLayout(s);
    TokensEntityTail(s);
    TokensAtText(s, 4);
    TokensAtText(s, 3);
    assert IsTag("<a>");
    TokensAtTag(s, 0, 3);
    ConsThree(Tag("<a>"), Text('b'), Text('c'), Tokens(s, 5));
    Concat3And3(Tag("<a>"), Text('b'), Text('c'), Tag("&nbsp;"), Text('d'), Tag("</a>"));
  }

  /** A new tag followed by two characters: the next placeholder, then the characters. */
  lemma CollapseOpening(d: Dictionary, a: string, x: char, y: char)
    requires d.Coherent() && d.next + 3 < PlaceholderLimit && a !in d.tags
    ensures CollapsePieces(d, [Tag(a), Text(x), Text(y)]) == ([d.next as char, x, y], Intern(d, a).1)
  {
    var (g, e) := Intern(d, a);
    CollapseTagStep(d, [], [], d, a, g, e);
    AppendToEmpty(Tag(a));
    AppendToEmpty(g);
    CollapseSnocText(d, [Tag(a)], x, [g], e);
    AppendToOne(Tag(a), Text(x));
    AppendToOne(g, x);
    CollapseSnocText(d, [Tag(a), Text(x)], y, [g, x], e);
    AppendToTwo(Tag(a), Text(x), Text(y));
    AppendToTwo(g, x, y);
  }

  /** A new tag followed by a character, after any collapsed prefix. */
  lemma CollapseTagText(d: Dictionary, ps: seq<Piece>, out: string, e: Dictionary, t: string, x: char)
    requires d.Coherent() && d.next + |ps| + 2 < PlaceholderLimit
    requires CollapsePieces(d, ps) == (out, e) && t !in e.tags
    ensures CollapsePieces(d, ps + [Tag(t), Text(x)]) == (out + [e.next as char, x], Intern(e, t).1)
  {
    var (c, e1) := Intern(e, t);
    CollapseTagStep(d, ps, out, e, t, c, e1);
    CollapseSnocText(d, ps + [Tag(t)], x, out + [c], e1);
    AppendPair(ps, Tag(t), Text(x));
    AppendPair(out, c, x);
  }

  /** A collapser that knows no tag gives three different tags its next three
      placeholders, in order. */
  lemma CollapseThreeTags(d: Dictionary, a: string, b: string, c: string, x: char, y: char, z: char)
    requires d.Coherent() && d.tags == map[] && d.next + 6 < PlaceholderLimit
    requires a != b && a != c && b != c
    ensures var (out, e) := CollapsePieces(d, [Tag(a), Text(x), Text(y), Tag(b), Text(z), Tag(c)]);
            && out == [d.next as char, x, y, (d.next + 1) as char, z, (d.next + 2) as char]
            && e.tags == map[a := d.next as char, b := (d.next + 1) as char, c := (d.next + 2) as char]
  {
    var ps := [Tag(a), Text(x), Text(y)];
    var e := Intern(d, a).1;
    CollapseOpening(d, a, x, y);
    assert e.tags == map[a := d.next as char] && e.next == d.next + 1;
    CollapseTagText(d, ps, [d.next as char, x, y], e, b, z);
    var ps1 := [Tag(a), Text(x), Text(y), Tag(b), Text(z)];
    Concat3And2(Tag(a), Text(x), Text(y), Tag(b), Text(z));
    var out1 := [d.next as char, x, y, e.next as char, z];
    Concat3And2(d.next as char, x, y, e.next as char, z);
    var e1 := Intern(e, b).1;
    assert e1.tags == map[a := d.next as char, b := e.next as char] && e1.next == d.next + 2;
    var (g, e2) := Intern(e1, c);
    CollapseTagStep(d, ps1, out1, e1, c, g, e2);
    Concat5And1(Tag(a), Text(x), Text(y), Tag(b), Text(z), Tag(c));
    Concat5And1(d.next as char, x, y, e.next as char, z, g);
  }

  /** A fresh collapser turns "<a>bc&nbsp;d</a>" into U+AC00 "bc" U+AC01 "d" U+AC02. */
  lemma CollapseEntity(s: string)
    requires s == "<a>bc&nbsp;d</a>"
    ensures CollapsePieces(Fresh(), Tokenize(s)).0 == "\U{AC00}bc\U{AC01}d\U{AC02}"
  {
    TokenizeEntity(s);
    CollapseThreeTags(Fresh(), "<a>", "&nbsp;", "</a>", 'b', 'c', 'd');
  }

  /** Expanding with a dictionary that has issued one placeholder. */
  lemma ExpandSingle(s: string, d: Dictionary)
    requires d.Coherent() && d.next == FirstPlaceholder + 1
    ensures FirstPlaceholder as char in d.chars
    ensures ExpandInOrder(s, d, FirstPlaceholder) == ReplaceAll(s, FirstPlaceholder as char, d.chars[FirstPlaceholder as char])
  {
    assert FirstPlaceholder as char in d.chars;
  }

  /** U+AC00 followed by "<a>" scans as that character and one tag. */
  lemma TokenizeLeadingPlaceholder(s: string)
    requires s == "\U{AC00}<a>"
    ensures Tokenize(s) == [Text(0xAC00 as char), Tag("<a>")]
  {
    SliceOfThree(s, 1, '<', 'a', '>');
    assert IsTag("<a>");
    TokensAtTag(s, 1, 4);
    TokensAtText(s, 0);
  }

  /** A character, then a tag the collapser does not know, after any collapsed prefix. */
  lemma CollapseTextTag(d: Dictionary, ps: seq<Piece>, out: string, e: Dictionary, x: char, t: string)
    requires d.Coherent() && d.next + |ps| + 2 < PlaceholderLimit
    requires CollapsePieces(d, ps) == (out, e) && t !in e.tags
    ensures CollapsePieces(d, ps + [Text(x), Tag(t)]) == (out + [x, e.next as char], Intern(e, t).1)
  {
    var (c, e1) := Intern(e, t);
    CollapseSnocText(d, ps, x, out, e);
    CollapseTagStep(d, ps + [Text(x)], out + [x], e, t, c, e1);
    AppendPair(ps, Text(x), Tag(t));
    AppendPair(out, x, c);
  }

  /** Both characters of `[g, g]` replaced by `t`. */
  lemma ReplaceBoth(g: char, t: string)
    ensures ReplaceAll([g, g], g, t) == t + t
  {
    assert [g, g][1..] == [g] && [g][1..] == [];
    assert ReplaceAll([g], g, t) == t + [];
  }

  /** The round trip needs text free of placeholders: a fresh collapser gives
      "<a>" the placeholder U+AC00, so a text that already holds U+AC00 in
      front of "<a>" expands to "<a><a>". */
  lemma PlaceholderInInput(s: string)
    requires s == "\U{AC00}<a>"
    ensures var (out, e) := CollapsePieces(Fresh(), Tokenize(s));
            ExpandInOrder(out, e, FirstPlaceholder) == "<a><a>" != s
  {
    var g := 0xAC00 as char;
    TokenizeLeadingPlaceholder(s);
    CollapseTextTag(Fresh(), [], [], Fresh(), g, "<a>");
    PairToEmpty(Text(g), Tag("<a>"));
    var e := Intern(Fresh(), "<a>").1;
    assert e.chars == map[g := "<a>"] && e.next == FirstPlaceholder + 1;
    ExpandSingle([g, g], e);
    ReplaceBoth(g, "<a>");
    Concat3And3('<', 'a', '>', '<', 'a', '>');
    assert |"<a><a>"| != |s|;
  }

  /** "<a\\0>" scans as one tag. */
  lemma TokenizeBackslashTag(s: string)
    requires s == "<a\\0>"
    ensures Tokenize(s) == [Tag(s)]
  {
    assert s[0..5] == s && IsTag(s);
    TokensAtTag(s, 0, 5);
  }

  /** The tag "<a\\0>" read as a replacement string at a match of `g`. */
  lemma InterpolateBackslashZero(s: string, g: char)
    requires s == "<a\\0>"
    ensures Interpolate(s, [], [g], []) == ['<', 'a', g, '>']
  {
    var t, u, v := s[1..], s[2..], s[4..];
    assert t == "a\\0>" && u == "\\0>" && v == ">" && t[1..] == u && u[2..] == v;
    assert v[1..] == [];
    assert Interpolate(v, [], [g], []) == ['>'];
    assert Interpolate(u, [], [g], []) == [g] + ['>'];
    assert Interpolate(t, [], [g], []) == ['a'] + [g, '>'];
    assert Interpolate(s, [], [g], []) == ['<'] + ['a', g, '>'];
  }

  /** A tag holding `\\0` does not come back from the source's `expand`: a
      fresh collapser turns "<a\\0>" into U+AC00, and `gsub!` then reads the
      `\\0` of the tag as the match, giving "<a" U+AC00 ">". The literal
      expansion gives the text back. */
  lemma BackslashTagAsWritten(s: string)
    requires s == "<a\\0>"
    ensures var (out, e) := CollapsePieces(Fresh(), Tokenize(s));
            && GsubInOrder(out, e, FirstPlaceholder) == "<a\U{AC00}>" != s
            && ExpandInOrder(out, e, FirstPlaceholder) == s
  {
    var g := 0xAC00 as char;
    TokenizeBackslashTag(s);
    var (c, e) := Intern(Fresh(), s);
    CollapseTagStep(Fresh(), [], [], Fresh(), s, c, e);
    AppendToEmpty(Tag(s));
    AppendToEmpty(c);
    assert c == g && e.chars == map[g := s] && e.next == FirstPlaceholder + 1;
    InterpolateBackslashZero(s, g);
    assert Gsub([g], g, s) == ['<', 'a', g, '>'];
    assert GsubInOrder([g], e, FirstPlaceholder) == Gsub([g], g, s);
    ExpandSingle([g], e);
    assert ReplaceAll([g], g, s) == s;
    assert |"<a\U{AC00}>"| != |s|;
  }

  /** Where the pieces of "<a>bc<b/>d</a>eded<a></a>" lie. */
  lemma ReusedLayout(s: string)
    requires s == "<a>bc<b/>d</a>eded<a></a>"
    ensures |s| == 25 && s[0..3] == "<a>" && s[3] == 'b' && s[4] == 'c'
    ensures s[5..9] == "<b/>" && s[9] == 'd' && s[10..14] == "</a>"
    ensures s[14..18] == "eded" && s[18..21] == "<a>" && s[21..25] == "</a>"
  {
    assert s[0..3] == "<a>";
    assert s[5..9] == "<b/>";
    assert s[10..14] == "</a>";
    assert s[14..18] == "eded";
    assert s[18..21] == "<a>";
    assert s[21..25] == "</a>";
  }

  /** The scan of "<a>bc<b/>d</a>eded<a></a>" from the second "<a>" on. */
  lemma TokensReusedEnd(s: string)
    requires |s| == 25 && s[18..21] == "<a>" && s[21..25] == "</a>"
    ensures Tokens(s, 18) == [Tag("<a>"), Tag("</a>")]
  {
    assert IsTag("</a>") && IsTag("<a>");
    TokensAtTag(s, 21, 25);
    TokensAtTag(s, 18, 21);
    ConsTwoEnd(Tag("<a>"), Tag("</a>"));
  }

  /** The scan of "<a>bc<b/>d</a>eded<a></a>" from "eded" on. */
  lemma TokensReusedTail(s: string)
    requires |s| == 25 && s[14..18] == "eded" && s[18..21] == "<a>" && s[21..25] == "</a>"
    ensures Tokens(s, 14) == [Text('e'), Text('d'), Text('e'), Text('d'), Tag("<a>"), Tag("</a>")]
  {
    TokensReusedEnd(s);
    assert s[14] == 'e' && s[15] == 'd' && s[16] == 'e' && s[17] == 'd';
    TokensAtText(s, 17);
    TokensAtText(s, 16);
    TokensAtText(s, 15);
    TokensAtText(s, 14);
    ConsFour(Text('e'), Text('d'), Text('e'), Text('d'), [Tag("<a>"), Tag("</a>")]);
    Concat4And2(Text('e'), Text('d'), Text('e'), Text('d'), Tag("<a>"), Tag("</a>"));
  }

  /** The scan of "<a>bc<b/>d</a>eded<a></a>" from "<b/>" to "eded". */
  lemma TokensReusedMiddle(s: string)
    requires |s| >= 14 && s[5..9] == "<b/>" && s[9] == 'd' && s[10..14] == "</a>"
    ensures Tokens(s, 5) == [Tag("<b/>"), Text('d'), Tag("</a>")] + Tokens(s, 14)
  {
    assert IsTag("</a>") && IsTag("<b/>");
    TokensAtTag(s, 10, 14);
    TokensAtText(s, 9);
    TokensAtTag(s, 5, 9);
    ConsThree(Tag("<b/>"), Text('d'), Tag("</a>"), Tokens(s, 14));
  }

  /** The scan of "<a>bc<b/>d</a>eded<a></a>" up to "<b/>". */
  lemma TokensReusedHead(s: string)
    requires |s| >= 5 && s[0..3] == "<a>" && s[3] == 'b' && s[4] == 'c'
    ensures Tokens(s, 0) == [Tag("<a>"), Text('b'), Text('c')] + Tokens(s, 5)
  {
    assert IsTag("<a>");
    TokensAtText(s, 4);
    TokensAtText(s, 3);
    TokensAtTag(s, 0, 3);
    ConsThree(Tag("<a>"), Text('b'), Text('c'), Tokens(s, 5));
  }

  /** "<a>bc<b/>d</a>eded<a></a>" scans as the six pieces up to "</a>", then
      "eded" and the same two tags again. */
  lemma TokenizeReusedTags(s: string)
    requires s == "<a>bc<b/>d</a>eded<a></a>"
    ensures Tokenize(s) ==
      [Tag("<a>"), Text('b'), Text('c'), Tag("<b/>"), Text('d'), Tag("</a>")]
      + [Text('e'), Text('d'), Text('e'), Text('d'), Tag("<a>"), Tag("</a>")]
  {
    ReusedLayout(s);
    TokensReusedHead(s);
    TokensReusedMiddle(s);
    TokensReusedTail(s);
    Concat3And3Then(Tag("<a>"), Text('b'), Text('c'), Tag("<b/>"), Text('d'), Tag("</a>"), Tokens(s, 14));
  }

  /** Characters and tags the collapser already knows: each tag gets its
      placeholder again and the dictionary stays as it was. */
  lemma CollapseReusedTail(e: Dictionary, a: string, c: string, x: char, y: char)
    requires e.Coherent() && e.next + 6 <= PlaceholderLimit && a in e.tags && c in e.tags
    ensures CollapsePieces(e, [Text(x), Text(y), Text(x), Text(y), Tag(a), Tag(c)]) == ([x, y, x, y, e.tags[a], e.tags[c]], e)
  {
    var ps := [Text(x), Text(y), Text(x), Text(y), Tag(a), Tag(c)];
    CollapseKnown(e, ps);
    CollapseStands(e, ps);
    var out := CollapsePieces(e, ps).0;
    assert Stands(ps[0], out[0], e) && Stands(ps[1], out[1], e) && Stands(ps[2], out[2], e);
    assert Stands(ps[3], out[3], e) && Stands(ps[4], out[4], e) && Stands(ps[5], out[5], e);
    assert out[0] == x && out[1] == y && out[2] == x && out[3] == y && out[4] == e.tags[a] && out[5] == e.tags[c];
    SixElements(out);
  }

  /** A fresh collapser turns "<a>bc<b/>d</a>eded<a></a>" into U+AC00 "bc"
      U+AC01 "d" U+AC02 "eded" U+AC00 U+AC02: a tag seen before gets its
      placeholder again. */
  lemma CollapseReusedTags(s: string)
    requires s == "<a>bc<b/>d</a>eded<a></a>"
    ensures CollapsePieces(Fresh(), Tokenize(s)).0 == "\U{AC00}bc\U{AC01}d\U{AC02}eded\U{AC00}\U{AC02}"
  {
    var head := [Tag("<a>"), Text('b'), Text('c'), Tag("<b/>"), Text('d'), Tag("</a>")];
    var tail := [Text('e'), Text('d'), Text('e'), Text('d'), Tag("<a>"), Tag("</a>")];
    TokenizeReusedTags(s);
    var d := Fresh();
    CollapseThreeTags(d, "<a>", "<b/>", "</a>", 'b', 'c', 'd');
    var (out1, e) := CollapsePieces(d, head);
    CollapseReusedTail(e, "<a>", "</a>", 'e', 'd');
    CollapseAppend(d, head, tail);
    Concat6And6(0xAC00 as char, 'b', 'c', 0xAC01 as char, 'd', 0xAC02 as char,
                'e', 'd', 'e', 'd', 0xAC00 as char, 0xAC02 as char);
  }
}
