/**
 * `stripBoilerplate` (src/strip-boilerplate.ts): a sequence of global,
 * case-insensitive regular-expression replacements that delete boilerplate
 * elements from an HTML string before it is converted to markdown.
 *
 * Each of the four regular expressions the function builds is modelled twice:
 *   - as a ghost predicate `Matches(pass, s, p, e)` that reads the pattern
 *     literally ("`s[p..e]` is one of the strings the pattern accepts"), and
 *   - as a computable function `MatchEnd(pass, s, p)` that finds the end of the
 *     match a backtracking engine reports at `p`;
 * and `MatchEndIsShortest` proves that the second is the shortest instance of
 * the first (lazy quantifiers pick the shortest span; the one greedy class
 * `[^>]*` can only ever end at one place).
 * `String.prototype.replace` with a global pattern scans left to right and
 * deletes non-overlapping matches; `ReplaceFrom` is that scan.
 */
module StripBoilerplate {
  import opened Wrappers
  import opened JsString

  /** Tags stripped on every call, in the order the passes run. */
  const DefaultStripTags: seq<string> :=
    ["nav", "header", "footer", "aside", "script", "style", "noscript", "iframe", "svg"]

  /** ARIA roles whose elements are stripped. */
  const StripRoles: seq<string> := ["navigation", "banner", "contentinfo", "complementary"]

  /** One `result.replace(regex, '')` step. */
  datatype Pass =
    | Paired(tag: string)       // <tag[\s>][\s\S]*?<\/tag>   flags gi
    | SelfClosing(tag: string)  // <tag[^>]*\/>              flags gi
    | Role(role: string)        // <[a-z][^>]+role=["']role["'][\s\S]*?>[\s\S]*?<\/[a-z]+>   flags gi
    | Comment                   // <!--[\s\S]*?-->            flag g

  // ---------------------------------------------------------------------
  // Pieces of the patterns.

  function OpenTag(tag: string): string { ['<'] + tag }

  function CloseTag(tag: string): string { "</" + tag + ">" }

  /** The class `[\s>]` that must follow the tag name of a paired element. */
  predicate IsBoundary(c: char) { IsJsSpace(c) || c == '>' }

  predicate IsQuote(c: char) { c == '"' || c == '\'' }

  /** `<tag` followed by a boundary character, at index `p`. */
  predicate OpensAt(s: string, p: nat, tag: string) {
    WordAt(s, p, OpenTag(tag), true) && p + |tag| + 1 < |s| && IsBoundary(s[p + |tag| + 1])
  }

  /** `role=`, a quote, the role name and a quote, at index `a` (case-insensitively;
      the two quotes need not be the same character). */
  predicate RoleAttrAt(s: string, a: nat, role: string) {
    && WordAt(s, a, "role=", true)
    && a + |role| + 7 <= |s|
    && IsQuote(s[a + 5])
    && WordAt(s, a + 6, role, true)
    && IsQuote(s[a + 6 + |role|])
  }

  /** `s[d..e]` is a closing tag `</[a-z]+>` (case-insensitively). */
  predicate ClosingTagSpan(s: string, d: nat, e: nat) {
    && d + 4 <= e <= |s|
    && s[d] == '<' && s[d + 1] == '/' && s[e - 1] == '>'
    && forall j :: d + 2 <= j < e - 1 ==> IsAsciiLetter(s[j])
  }

  /** A role attribute at `a` sits inside the opening tag begun at `p`: the
      `[^>]+` between the tag's first letter and the attribute met no `>`. */
  predicate AttrInOpening(s: string, p: nat, role: string, a: nat) {
    p + 3 <= a && RoleAttrAt(s, a, role) && forall j :: p + 2 <= j < a ==> s[j] != '>'
  }

  /** Some `>` lies in `s[lo..hi]`. */
  predicate GtBetween(s: string, lo: nat, hi: nat) {
    exists c: nat :: lo <= c < hi && c < |s| && s[c] == '>'
  }

  // ---------------------------------------------------------------------
  // The patterns, read literally.

  /** `s[p..e]` is accepted by the pattern of `pass`. */
  ghost predicate Matches(pass: Pass, s: string, p: nat, e: nat) {
    match pass
    case Paired(tag) =>
      && OpensAt(s, p, tag)
      && p + 2 * |tag| + 5 <= e
      && WordAt(s, e - |tag| - 3, CloseTag(tag), true)
    case SelfClosing(tag) =>
      && WordAt(s, p, OpenTag(tag), true)
      && p + |tag| + 3 <= e <= |s|
      && s[e - 2] == '/' && s[e - 1] == '>'
      && forall j :: p + |tag| + 1 <= j < e - 2 ==> s[j] != '>'
    case Role(role) =>
      && p + 1 < |s| && s[p] == '<' && IsAsciiLetter(s[p + 1])
      && exists a: nat :: AttrInOpening(s, p, role, a)
                          && exists d: nat :: ClosingTagSpan(s, d, e) && GtBetween(s, a + |role| + 7, d)
    case Comment =>
      && WordAt(s, p, "<!--", false)
      && p + 7 <= e
      && WordAt(s, e - 3, "-->", false)
  }

  /** `r` is what a global `replace` deletes at `p`: the shortest accepted span
      starting there, or nothing when no span starting there is accepted. */
  ghost predicate ShortestMatch(pass: Pass, s: string, p: nat, r: Option<nat>) {
    && (r.Some? ==> Matches(pass, s, p, r.value) && forall e: nat :: Matches(pass, s, p, e) ==> r.value <= e)
    && (r.None? ==> forall e: nat :: !Matches(pass, s, p, e))
  }

  // ---------------------------------------------------------------------
  // The searches a backtracking engine performs.

  function PairedEnd(s: string, p: nat, tag: string): (r: Option<nat>)
    ensures r.Some? ==> p < r.value <= |s|
  {
    if OpensAt(s, p, tag) then
      match Find(s, CloseTag(tag), p + |tag| + 2, true)
      case Some(j) => Some(j + |tag| + 3)
      case None => None
    else None
  }

  function SelfClosingEnd(s: string, p: nat, tag: string): (r: Option<nat>)
    ensures r.Some? ==> p < r.value <= |s|
  {
    if WordAt(s, p, OpenTag(tag), true) then
      match FindChar(s, '>', p + |tag| + 1)
      case Some(g) => if g > p + |tag| + 1 && s[g - 1] == '/' then Some(g + 1) else None
      case None => None
    else None
  }

  function LetterRunEnd(s: string, i: nat): (e: nat)
    requires i <= |s|
    ensures i <= e <= |s|
    ensures forall j :: i <= j < e ==> IsAsciiLetter(s[j])
    ensures e == |s| || !IsAsciiLetter(s[e])
    decreases |s| - i
  {
    if i < |s| && IsAsciiLetter(s[i]) then LetterRunEnd(s, i + 1) else i
  }

  /** The end of the closing tag `</[a-z]+>` that starts at `d`, if one does. */
  function CloseTagEnd(s: string, d: nat): (r: Option<nat>)
    ensures r.Some? ==> d + 4 <= r.value <= |s|
  {
    if d + 2 <= |s| && s[d] == '<' && s[d + 1] == '/' then
      var e := LetterRunEnd(s, d + 2);
      if d + 2 < e < |s| && s[e] == '>' then Some(e + 1) else None
    else None
  }

  /** The first index at or after `from` where a closing tag starts. */
  function FindCloseTag(s: string, from: nat): (r: Option<nat>)
    ensures r.Some? ==> from <= r.value && CloseTagEnd(s, r.value).Some?
    ensures r.Some? ==> forall d :: from <= d < r.value ==> CloseTagEnd(s, d).None?
    ensures r.None? ==> forall d :: from <= d ==> CloseTagEnd(s, d).None?
    decreases |s| - from
  {
    if from >= |s| then None
    else if CloseTagEnd(s, from).Some? then Some(from)
    else FindCloseTag(s, from + 1)
  }

  /** Some role attribute lies wholly inside `s[lo..hi]`. */
  function HasRoleAttr(s: string, role: string, lo: nat, hi: nat): (r: bool)
    ensures r <==> exists a: nat :: lo <= a && a + |role| + 7 <= hi && RoleAttrAt(s, a, role)
  {
    exists a: nat | lo <= a <= hi - |role| - 7 :: RoleAttrAt(s, a, role)
  }

  function RoleEnd(s: string, p: nat, role: string): (r: Option<nat>)
    ensures r.Some? ==> p < r.value <= |s|
  {
    if p + 1 < |s| && s[p] == '<' && IsAsciiLetter(s[p + 1]) then
      match FindChar(s, '>', p + 2)
      case None => None
      case Some(g) =>
        if HasRoleAttr(s, role, p + 3, g) then
          match FindCloseTag(s, g + 1)
          case None => None
          case Some(d) => CloseTagEnd(s, d)
        else None
    else None
  }

  function CommentEnd(s: string, p: nat): (r: Option<nat>)
    ensures r.Some? ==> p < r.value <= |s|
  {
    if WordAt(s, p, "<!--", false) then
      match Find(s, "-->", p + 4, false)
      case Some(j) => Some(j + 3)
      case None => None
    else None
  }

  /** The end of the span `pass` deletes at `p`, if it deletes one there. */
  function MatchEnd(pass: Pass, s: string, p: nat): (r: Option<nat>)
    ensures r.Some? ==> p < r.value <= |s|
  {
    match pass
    case Paired(tag) => PairedEnd(s, p, tag)
    case SelfClosing(tag) => SelfClosingEnd(s, p, tag)
    case Role(role) => RoleEnd(s, p, role)
    case Comment => CommentEnd(s, p)
  }

  // ---------------------------------------------------------------------
  // The engine's search finds the shortest accepted span.

  lemma PairedShortest(s: string, p: nat, tag: string)
    ensures ShortestMatch(Paired(tag), s, p, PairedEnd(s, p, tag))
  {
    var r := PairedEnd(s, p, tag);
    forall e: nat | Matches(Paired(tag), s, p, e) ensures r.Some? && r.value <= e {
      assert p + 2 * |tag| + 5 <= e;
      var j: nat := e - |tag| - 3;
      assert WordAt(s, j, CloseTag(tag), true);
    }
  }

  lemma SelfClosingShortest(s: string, p: nat, tag: string)
    ensures ShortestMatch(SelfClosing(tag), s, p, SelfClosingEnd(s, p, tag))
  {
    var g := FindChar(s, '>', p + |tag| + 1);
    forall e: nat | Matches(SelfClosing(tag), s, p, e) ensures SelfClosingEnd(s, p, tag) == Some(e) {
      assert s[e - 1] == '>';
      assert g.Some? && g.value == e - 1;
    }
  }

  lemma CloseTagEndIff(s: string, d: nat, e: nat)
    ensures CloseTagEnd(s, d) == Some(e) <==> ClosingTagSpan(s, d, e)
  {
    if ClosingTagSpan(s, d, e) {
      var k := LetterRunEnd(s, d + 2);
      assert k >= e - 1;
      assert !IsAsciiLetter(s[e - 1]);
    }
  }

  /** Closing tags do not overlap: a later one ends later. */
  lemma CloseTagEndMonotone(s: string, d1: nat, d2: nat)
    requires d1 <= d2 && CloseTagEnd(s, d1).Some? && CloseTagEnd(s, d2).Some?
    ensures CloseTagEnd(s, d1).value <= CloseTagEnd(s, d2).value
  {
    var e1 := CloseTagEnd(s, d1).value;
    CloseTagEndIff(s, d1, e1);
    CloseTagEndIff(s, d2, CloseTagEnd(s, d2).value);
    if d2 < e1 {
      assert s[d2] == '<';
      assert d2 == d1;
    }
  }

  /** A role attribute contains no `>`, as long as the role name has none. */
  lemma RoleAttrNoGt(s: string, a: nat, role: string)
    requires RoleAttrAt(s, a, role) && '>' !in role
    ensures forall j :: a <= j < a + |role| + 7 ==> s[j] != '>'
  {
    forall j | a <= j < a + |role| + 7 ensures s[j] != '>' {
      if j < a + 5 {
        assert SameChar(s[a + (j - a)], "role="[j - a], true);
      } else if a + 6 <= j < a + 6 + |role| {
        assert SameChar(s[a + 6 + (j - a - 6)], role[j - a - 6], true);
        assert role[j - a - 6] in role;
      }
    }
  }

  /** The three searches of `RoleEnd` succeed at `p`, finding `>` at `g` and
      the closing tag at `d`. */
  predicate RoleSearches(s: string, p: nat, role: string, g: nat, d: nat) {
    && p + 1 < |s| && s[p] == '<' && IsAsciiLetter(s[p + 1])
    && FindChar(s, '>', p + 2) == Some(g) && HasRoleAttr(s, role, p + 3, g)
    && FindCloseTag(s, g + 1) == Some(d)
  }

  /** `RoleEnd` once its three searches are known. */
  lemma RoleEndOf(s: string, p: nat, role: string, g: nat, d: nat)
    requires RoleSearches(s, p, role, g, d)
    ensures RoleEnd(s, p, role) == CloseTagEnd(s, d)
  {
  }

  lemma RoleSound(s: string, p: nat, role: string)
    requires RoleEnd(s, p, role).Some?
    ensures Matches(Role(role), s, p, RoleEnd(s, p, role).value)
  {
    var e := RoleEnd(s, p, role).value;
    var g := FindChar(s, '>', p + 2).value;
    var a: nat :| p + 3 <= a && a + |role| + 7 <= g && RoleAttrAt(s, a, role);
    var d := FindCloseTag(s, g + 1).value;
    assert AttrInOpening(s, p, role, a);
    assert a + |role| + 7 <= g < d && g < |s| && s[g] == '>';
    assert GtBetween(s, a + |role| + 7, d);
    CloseTagEndIff(s, d, e);
  }

  lemma RoleComplete(s: string, p: nat, role: string, e: nat)
    requires '>' !in role
    requires Matches(Role(role), s, p, e)
    ensures RoleEnd(s, p, role).Some? && RoleEnd(s, p, role).value <= e
  {
    var a: nat :| AttrInOpening(s, p, role, a)
                  && exists d: nat :: ClosingTagSpan(s, d, e) && GtBetween(s, a + |role| + 7, d);
    var d: nat :| ClosingTagSpan(s, d, e) && GtBetween(s, a + |role| + 7, d);
    var c: nat :| a + |role| + 7 <= c < d && c < |s| && s[c] == '>';
    var g := RoleOpeningFound(s, p, role, a, c);
    RoleClosingFound(s, g, d, e);
    RoleEndOf(s, p, role, g, FindCloseTag(s, g + 1).value);
  }

  /** The first `>` after a matched opening closes it, and the role attribute lies before it. */
  lemma RoleOpeningFound(s: string, p: nat, role: string, a: nat, c: nat) returns (g: nat)
    requires '>' !in role && AttrInOpening(s, p, role, a)
    requires a + |role| + 7 <= c < |s| && s[c] == '>'
    ensures FindChar(s, '>', p + 2) == Some(g) && g <= c && HasRoleAttr(s, role, p + 3, g)
  {
    RoleAttrNoGt(s, a, role);
    var found := FindChar(s, '>', p + 2);
    assert found.Some?;
    g := found.value;
    assert a + |role| + 7 <= g;
  }

  /** The first closing tag after `g` ends no later than any closing tag after `g`. */
  lemma RoleClosingFound(s: string, g: nat, d: nat, e: nat)
    requires g < d && ClosingTagSpan(s, d, e)
    ensures FindCloseTag(s, g + 1).Some? && CloseTagEnd(s, FindCloseTag(s, g + 1).value).value <= e
  {
    CloseTagEndIff(s, d, e);
    var d0 := FindCloseTag(s, g + 1);
    assert d0.Some? && d0.value <= d;
    CloseTagEndMonotone(s, d0.value, d);
  }

  lemma RoleShortest(s: string, p: nat, role: string)
    requires '>' !in role
    ensures ShortestMatch(Role(role), s, p, RoleEnd(s, p, role))
  {
    forall e: nat | Matches(Role(role), s, p, e)
      ensures RoleEnd(s, p, role).Some? && RoleEnd(s, p, role).value <= e
    {
      RoleComplete(s, p, role, e);
    }
    if RoleEnd(s, p, role).Some? {
      RoleSound(s, p, role);
    }
  }

  lemma CommentShortest(s: string, p: nat)
    ensures ShortestMatch(Comment, s, p, CommentEnd(s, p))
  {
    var r := CommentEnd(s, p);
    forall e: nat | Matches(Comment, s, p, e) ensures r.Some? && r.value <= e {
      assert WordAt(s, e - 3, "-->", false);
    }
  }

  /** Every pass deletes, at `p`, the shortest span its pattern accepts there
      (role names are the fixed ones, which contain no `>`). */
  lemma MatchEndIsShortest(pass: Pass, s: string, p: nat)
    requires pass.Role? ==> '>' !in pass.role
    ensures ShortestMatch(pass, s, p, MatchEnd(pass, s, p))
  {
    match pass
    case Paired(tag) => PairedShortest(s, p, tag);
    case SelfClosing(tag) => SelfClosingShortest(s, p, tag);
    case Role(role) => RoleShortest(s, p, role);
    case Comment => CommentShortest(s, p);
  }

  // ---------------------------------------------------------------------
  // A global replace: scan left to right, delete each match, resume after it.

  function ReplaceFrom(pass: Pass, s: string, i: nat): string
    requires i <= |s|
    decreases |s| - i
  {
    if i == |s| then []
    else match MatchEnd(pass, s, i)
      case Some(e) => ReplaceFrom(pass, s, e)
      case None => [s[i]] + ReplaceFrom(pass, s, i + 1)
  }

  /** `s.replace(regex, '')` for the pattern of `pass`. */
  function Replaced(pass: Pass, s: string): string {
    ReplaceFrom(pass, s, 0)
  }

  /** The passes in order. */
  function ApplyPasses(s: string, passes: seq<Pass>): string
    decreases |passes|
  {
    if passes == [] then s
    else Replaced(passes[|passes| - 1], ApplyPasses(s, passes[..|passes| - 1]))
  }

  /** The two passes each tag gets, tag by tag. */
  function TagPassList(tags: seq<string>): (r: seq<Pass>)
    ensures |r| == 2 * |tags|
    ensures forall k :: 0 <= k < |tags| ==> r[2 * k] == Paired(tags[k]) && r[2 * k + 1] == SelfClosing(tags[k])
    decreases |tags|
  {
    if tags == [] then []
    else TagPassList(tags[..|tags| - 1]) + [Paired(tags[|tags| - 1]), SelfClosing(tags[|tags| - 1])]
  }

  function RolePassList(roles: seq<string>): (r: seq<Pass>)
    ensures |r| == |roles|
    ensures forall k :: 0 <= k < |roles| ==> r[k] == Role(roles[k])
    decreases |roles|
  {
    if roles == [] then [] else RolePassList(roles[..|roles| - 1]) + [Role(roles[|roles| - 1])]
  }

  /** Every pass `stripBoilerplate(html, extraTags)` performs, in order. */
  function PassList(extraTags: seq<string>): seq<Pass> {
    TagPassList(DefaultStripTags + extraTags) + RolePassList(StripRoles) + [Comment]
  }

  /** What `stripBoilerplate(html, extraTags)` returns. */
  function Stripped(html: string, extraTags: seq<string>): string {
    ApplyPasses(html, PassList(extraTags))
  }

  lemma ApplyPassesSnoc(s: string, passes: seq<Pass>, q: Pass)
    ensures ApplyPasses(s, passes + [q]) == Replaced(q, ApplyPasses(s, passes))
  {
    assert (passes + [q])[..|passes|] == passes;
  }

  /** Running two lists of passes one after the other is running their concatenation. */
  lemma {:induction false} ApplyPassesAppend(s: string, xs: seq<Pass>, ys: seq<Pass>)
    ensures ApplyPasses(s, xs + ys) == ApplyPasses(ApplyPasses(s, xs), ys)
    decreases |ys|
  {
    if ys == [] {
      assert xs + ys == xs;
    } else {
      var init := ys[..|ys| - 1];
      var last := ys[|ys| - 1];
      assert ys == init + [last];
      assert xs + ys == (xs + init) + [last];
      ApplyPassesSnoc(s, xs + init, last);
      ApplyPassesAppend(s, xs, init);
      ApplyPassesSnoc(ApplyPasses(s, xs), init, last);
    }
  }

  // ---------------------------------------------------------------------
  // The imperative code.

  /** `s.replace(regex, '')`: one left-to-right scan. */
  method ReplaceAll(pass: Pass, s: string) returns (r: string)
    ensures r == Replaced(pass, s)
    ensures IsSubsequence(r, s)
  {
    r := [];
    var i := 0;
    assert r + ReplaceFrom(pass, s, 0) == Replaced(pass, s);
    while i < |s|
      invariant 0 <= i <= |s|
      invariant r + ReplaceFrom(pass, s, i) == Replaced(pass, s)
      decreases |s| - i
    {
      var m := MatchEnd(pass, s, i);
      ReplaceStep(pass, s, i, r);
      if m.Some? {
        i := m.value;
      } else {
        r := r + [s[i]];
        i := i + 1;
      }
    }
    ReplacedSubsequence(pass, s);
  }

  /** One step of the scan keeps "output so far + rest of the replacement" equal to the whole replacement. */
  lemma ReplaceStep(pass: Pass, s: string, i: nat, r: string)
    requires i < |s| && r + ReplaceFrom(pass, s, i) == Replaced(pass, s)
    ensures MatchEnd(pass, s, i).Some? ==> r + ReplaceFrom(pass, s, MatchEnd(pass, s, i).value) == Replaced(pass, s)
    ensures MatchEnd(pass, s, i).None? ==> (r + [s[i]]) + ReplaceFrom(pass, s, i + 1) == Replaced(pass, s)
  {
    if MatchEnd(pass, s, i).None? {
      var rest := ReplaceFrom(pass, s, i + 1);
      assert ReplaceFrom(pass, s, i) == [s[i]] + rest;
      assert r + ([s[i]] + rest) == (r + [s[i]]) + rest;
    }
  }

  /** `stripBoilerplate(html, extraTags)`. */
  method StripBoilerplate(html: string, extraTags: seq<string>) returns (result: string)
    ensures result == Stripped(html, extraTags)
    ensures IsSubsequence(result, html)
  {
    var tagPasses := TagPassList(DefaultStripTags + extraTags);
    result := StripTags(html, DefaultStripTags + extraTags);
    result := StripRoleAttributes(html, tagPasses, result);
    result := ReplaceAll(Comment, result);
    ApplyPassesSnoc(html, tagPasses + RolePassList(StripRoles), Comment);
    StrippedSubsequence(html, extraTags);
  }

  /** The loop over the tags: for each, the paired and then the self-closing pass. */
  method StripTags(html: string, allTags: seq<string>) returns (result: string)
    ensures result == ApplyPasses(html, TagPassList(allTags))
  {
    result := html;
    assert allTags[..0] == [];
    for i := 0 to |allTags|
      invariant result == ApplyPasses(html, TagPassList(allTags[..i]))
    {
      var tag := allTags[i];
      var before := TagPassList(allTags[..i]);
      assert allTags[..i + 1][..i] == allTags[..i];
      assert TagPassList(allTags[..i + 1]) == (before + [Paired(tag)]) + [SelfClosing(tag)];
      result := ReplaceAll(Paired(tag), result);
      ApplyPassesSnoc(html, before, Paired(tag));
      result := ReplaceAll(SelfClosing(tag), result);
      ApplyPassesSnoc(html, before + [Paired(tag)], SelfClosing(tag));
    }
    assert allTags[..|allTags|] == allTags;
  }

  /** The loop over the roles, run on the result of the earlier passes. */
  method StripRoleAttributes(html: string, earlier: seq<Pass>, current: string) returns (result: string)
    requires current == ApplyPasses(html, earlier)
    ensures result == ApplyPasses(html, earlier + RolePassList(StripRoles))
  {
    result := current;
    assert StripRoles[..0] == [] && earlier + RolePassList([]) == earlier;
    for j := 0 to |StripRoles|
      invariant result == ApplyPasses(html, earlier + RolePassList(StripRoles[..j]))
    {
      var role := StripRoles[j];
      assert StripRoles[..j + 1][..j] == StripRoles[..j];
      assert earlier + RolePassList(StripRoles[..j + 1])
          == (earlier + RolePassList(StripRoles[..j])) + [Role(role)];
      result := ReplaceAll(Role(role), result);
      ApplyPassesSnoc(html, earlier + RolePassList(StripRoles[..j]), Role(role));
    }
    assert StripRoles[..|StripRoles|] == StripRoles;
  }

  // ---------------------------------------------------------------------
  // Properties of the model.

  /** A pass only deletes characters: what it keeps is a subsequence of its input. */
  lemma {:induction false} ReplaceFromSubsequence(pass: Pass, s: string, i: nat)
    requires i <= |s|
    ensures IsSubsequence(ReplaceFrom(pass, s, i), s[i..])
    decreases |s| - i
  {
    if i < |s| {
      match MatchEnd(pass, s, i) {
        case Some(e) =>
          ReplaceFromSubsequence(pass, s, e);
          SubsequenceOfSuffix(ReplaceFrom(pass, s, e), s, i, e);
        case None =>
          ReplaceFromSubsequence(pass, s, i + 1);
          var rest := ReplaceFrom(pass, s, i + 1);
          assert ([s[i]] + rest)[1..] == rest;
          assert s[i..][1..] == s[i + 1..];
      }
    }
  }

  lemma ReplacedSubsequence(pass: Pass, s: string)
    ensures IsSubsequence(Replaced(pass, s), s)
  {
    ReplaceFromSubsequence(pass, s, 0);
    assert s[0..] == s;
  }

  lemma {:induction false} ApplyPassesSubsequence(s: string, passes: seq<Pass>)
    ensures IsSubsequence(ApplyPasses(s, passes), s)
    decreases |passes|
  {
    if passes == [] {
      SubsequenceReflexive(s);
    } else {
      var mid := ApplyPasses(s, passes[..|passes| - 1]);
      ApplyPassesSubsequence(s, passes[..|passes| - 1]);
      ReplacedSubsequence(passes[|passes| - 1], mid);
      SubsequenceTransitive(ApplyPasses(s, passes), mid, s);
    }
  }

  /** Stripping never adds text: the result is the input with characters deleted,
      so it is never longer. */
  lemma StrippedSubsequence(html: string, extraTags: seq<string>)
    ensures IsSubsequence(Stripped(html, extraTags), html)
    ensures |Stripped(html, extraTags)| <= |html|
  {
    ApplyPassesSubsequence(html, PassList(extraTags));
    SubsequenceLength(Stripped(html, extraTags), html);
  }

  /** Where no span starts, the scan copies the input through unchanged. */
  lemma {:induction false} NoMatchFrom(pass: Pass, s: string, i: nat)
    requires i <= |s|
    requires forall p :: i <= p < |s| ==> MatchEnd(pass, s, p).None?
    ensures ReplaceFrom(pass, s, i) == s[i..]
    decreases |s| - i
  {
    if i < |s| {
      NoMatchFrom(pass, s, i + 1);
      assert s[i..] == [s[i]] + s[i + 1..];
    }
  }

  /** A paired element whose closing tag never appears is left alone, and so is
      everything after its opening tag: later starts of the same tag cannot find
      a closing tag either. */
  lemma UnclosedPairedStops(s: string, p: nat, tag: string)
    requires p <= |s|
    requires OpensAt(s, p, tag) && PairedEnd(s, p, tag).None?
    ensures ReplaceFrom(Paired(tag), s, p) == s[p..]
  {
    forall p' | p <= p' < |s| ensures MatchEnd(Paired(tag), s, p').None? {
      assert Find(s, CloseTag(tag), p + |tag| + 2, true).None?;
    }
    NoMatchFrom(Paired(tag), s, p);
  }

  /** The character at `p` cannot begin a span: it is not `<`, or it is the
      last character, or `/` follows it. */
  predicate InertAt(s: string, p: nat) {
    p + 1 < |s| && s[p] == '<' ==> s[p + 1] == '/'
  }

  /** No character can begin a span: every `<` is the last character or is
      followed by `/`. */
  predicate OnlyClosingMarkup(s: string) {
    forall p: nat :: p < |s| ==> InertAt(s, p)
  }

  /** A tag name that could be stripped: non-empty and not starting with `/`. */
  predicate UsableTag(tag: string) {
    |tag| > 0 && tag[0] != '/'
  }

  predicate UsablePass(pass: Pass) {
    match pass
    case Paired(tag) => UsableTag(tag)
    case SelfClosing(tag) => UsableTag(tag)
    case _ => true
  }

  lemma NoOpenTagAt(s: string, p: nat, tag: string)
    requires InertAt(s, p) && UsableTag(tag)
    ensures !WordAt(s, p, OpenTag(tag), true)
  {
    var w := OpenTag(tag);
    if p + |w| <= |s| {
      if s[p] == '<' {
        assert s[p + 1] == '/';
        NotWordAt(s, p, w, true, 1);
      } else {
        NotWordAt(s, p, w, true, 0);
      }
    }
  }

  lemma NoStartWithoutMarkup(pass: Pass, s: string, p: nat)
    requires InertAt(s, p) && UsablePass(pass)
    ensures MatchEnd(pass, s, p).None?
  {
    match pass
    case Paired(tag) => NoOpenTagAt(s, p, tag);
    case SelfClosing(tag) => NoOpenTagAt(s, p, tag);
    case Role(_) =>
    case Comment =>
      if p + 4 <= |s| {
        if s[p] == '<' {
          NotWordAt(s, p, "<!--", false, 1);
        } else {
          NotWordAt(s, p, "<!--", false, 0);
        }
      }
  }

  lemma {:induction false} ApplyPassesWithoutMarkup(s: string, passes: seq<Pass>)
    requires OnlyClosingMarkup(s)
    requires forall k :: 0 <= k < |passes| ==> UsablePass(passes[k])
    ensures ApplyPasses(s, passes) == s
    decreases |passes|
  {
    if passes != [] {
      ApplyPassesWithoutMarkup(s, passes[..|passes| - 1]);
      NoMatchFromSuffix(passes[|passes| - 1], s, 0);
      assert s[0..] == s;
    }
  }

  /** A pass leaves alone a suffix in which no span can start. */
  lemma NoMatchFromSuffix(pass: Pass, s: string, i: nat)
    requires i <= |s| && UsablePass(pass)
    requires forall p: nat :: i <= p < |s| ==> InertAt(s, p)
    ensures ReplaceFrom(pass, s, i) == s[i..]
  {
    forall p | i <= p < |s| ensures MatchEnd(pass, s, p).None? {
      NoStartWithoutMarkup(pass, s, p);
    }
    NoMatchFrom(pass, s, i);
  }

  /** Text in which every `<` is the last character or opens a closing tag
      (in particular, text without `<`) comes back unchanged. */
  lemma StrippedWithoutMarkup(html: string, extraTags: seq<string>)
    requires OnlyClosingMarkup(html)
    requires forall k :: 0 <= k < |extraTags| ==> UsableTag(extraTags[k])
    ensures Stripped(html, extraTags) == html
  {
    var tags := DefaultStripTags + extraTags;
    var passes := PassList(extraTags);
    assert forall k :: 0 <= k < |tags| ==> UsableTag(tags[k]) by {
      forall k | 0 <= k < |tags| ensures UsableTag(tags[k]) {
        if k >= |DefaultStripTags| {
          assert tags[k] == extraTags[k - |DefaultStripTags|];
        }
      }
    }
    forall k | 0 <= k < |passes| ensures UsablePass(passes[k]) {
      var t := TagPassList(tags);
      if k < |t| {
        assert passes[k] == t[k];
        assert t[k] == if k % 2 == 0 then Paired(tags[k / 2]) else SelfClosing(tags[k / 2]);
      }
    }
    ApplyPassesWithoutMarkup(html, passes);
  }

  /** Clean input: when no pass of the list can start a span anywhere in `html`,
      the stripper gives `html` back. This covers ordinary markup such as
      `<p>hi</p>`, which only the comment pass and the passes of other tags see. */
  lemma StrippedClean(html: string, extraTags: seq<string>)
    requires forall k, p :: 0 <= k < |PassList(extraTags)| && 0 <= p < |html| ==>
               MatchEnd(PassList(extraTags)[k], html, p).None?
    ensures Stripped(html, extraTags) == html
  {
    ApplyPassesClean(html, PassList(extraTags));
  }

  lemma {:induction false} ApplyPassesClean(s: string, passes: seq<Pass>)
    requires forall k, p :: 0 <= k < |passes| && 0 <= p < |s| ==> MatchEnd(passes[k], s, p).None?
    ensures ApplyPasses(s, passes) == s
    decreases |passes|
  {
    if passes != [] {
      var init := passes[..|passes| - 1];
      var q := passes[|passes| - 1];
      forall k, p | 0 <= k < |init| && 0 <= p < |s| ensures MatchEnd(init[k], s, p).None? {
        assert init[k] == passes[k];
      }
      ApplyPassesClean(s, init);
      forall p | 0 <= p < |s| ensures MatchEnd(q, s, p).None? {
        assert MatchEnd(passes[|passes| - 1], s, p).None?;
      }
      NoMatchFrom(q, s, 0);
      assert s[0..] == s;
    }
  }

  /** Every pattern starts with `<`, so text without `<` comes back unchanged,
      whatever the extra tags are. */
  lemma StrippedWithoutAngleBracket(html: string, extraTags: seq<string>)
    requires '<' !in html
    ensures Stripped(html, extraTags) == html
  {
    ApplyPassesWithoutAngleBracket(html, PassList(extraTags));
  }

  lemma {:induction false} ApplyPassesWithoutAngleBracket(s: string, passes: seq<Pass>)
    requires '<' !in s
    ensures ApplyPasses(s, passes) == s
    decreases |passes|
  {
    if passes != [] {
      var q := passes[|passes| - 1];
      ApplyPassesWithoutAngleBracket(s, passes[..|passes| - 1]);
      forall p | 0 <= p < |s| ensures MatchEnd(q, s, p).None? {
        NoStartWithoutAngleBracket(q, s, p);
      }
      NoMatchFrom(q, s, 0);
      assert s[0..] == s;
    }
  }

  lemma NoStartWithoutAngleBracket(pass: Pass, s: string, p: nat)
    requires '<' !in s && p < |s|
    ensures MatchEnd(pass, s, p).None?
  {
    assert s[p] in s;
    SameCharNonLetter(s[p], '<', true);
    SameCharNonLetter(s[p], '<', false);
    match pass
    case Paired(tag) => if p + |OpenTag(tag)| <= |s| { NotWordAt(s, p, OpenTag(tag), true, 0); }
    case SelfClosing(tag) => if p + |OpenTag(tag)| <= |s| { NotWordAt(s, p, OpenTag(tag), true, 0); }
    case Role(_) =>
    case Comment => if p + 4 <= |s| { NotWordAt(s, p, "<!--", false, 0); }
  }

  lemma InertSuffix(s: string, i: nat)
    requires i <= |s| && OnlyClosingMarkup(s[i..])
    ensures forall p: nat :: i <= p < |s| ==> InertAt(s, p)
  {
    forall p: nat | i <= p < |s| ensures InertAt(s, p) {
      assert InertAt(s[i..], p - i);
      if p + 1 < |s| {
        assert s[i..][p - i + 1] == s[p + 1];
      }
    }
  }

  lemma NoAngleBracket(s: string)
    requires '<' !in s
    ensures OnlyClosingMarkup(s)
  {
    forall p: nat | p < |s| ensures InertAt(s, p) {
      assert s[p] in s;
    }
  }

  // ---------------------------------------------------------------------
  // Documented behaviour on small inputs.

  /** Nested elements of the same tag are not fully removed: the first closing
      tag ends the first opening tag's span, leaving the outer remainder. */
  lemma NestedSameTagLeavesTail()
    ensures Replaced(Paired("nav"), "<nav>a<nav>b</nav>c</nav>") == "c</nav>"
  {
    var s := "<nav>a<nav>b</nav>c</nav>";
    NestedFirstSpan();
    NestedTailInert();
    NoMatchFromSuffix(Paired("nav"), s, 18);
    assert s[18..] == "c</nav>";
  }

  lemma NestedFirstSpan()
    ensures MatchEnd(Paired("nav"), "<nav>a<nav>b</nav>c</nav>", 0) == Some(18)
  {
    var s := "<nav>a<nav>b</nav>c</nav>";
    var w := CloseTag("nav");
    assert OpensAt(s, 0, "nav");
    assert WordAt(s, 12, w, true);
    assert forall i :: 6 <= i < 13 ==> s[i] != '/';
    NoWordBetween(s, w, true, 5, 12, 1);
    FindAt(s, w, 5, 12, true);
  }

  lemma NestedTailInert()
    ensures forall p: nat :: 18 <= p < 25 ==> InertAt("<nav>a<nav>b</nav>c</nav>", p)
  {
    var s := "<nav>a<nav>b</nav>c</nav>";
    var t := s[18..];
    assert t == "c</nav>";
    assert forall p: nat :: 2 <= p < |t| ==> t[p] != '<';
    assert OnlyClosingMarkup(t);
    InertSuffix(s, 18);
  }

  /** The tag name must end at a space or `>`: `<navbar>` is not a `nav` element. */
  lemma LongerTagNameNotPaired()
    ensures MatchEnd(Paired("nav"), "<navbar>x</navbar>", 0).None?
  {
    var s := "<navbar>x</navbar>";
    assert !IsBoundary(s[4]);
  }

  /** The self-closing pattern has no such boundary: `<navbar/>` is deleted by the
      `nav` pass. */
  lemma LongerTagNameSelfClosing()
    ensures Replaced(SelfClosing("nav"), "<navbar/>") == ""
  {
    var s := "<navbar/>";
    assert WordAt(s, 0, OpenTag("nav"), true);
    assert FindChar(s, '>', 4) == Some(8);
    assert MatchEnd(SelfClosing("nav"), s, 0) == Some(9);
  }

  /** Tag names match case-insensitively. */
  lemma UpperCaseTagStripped()
    ensures Replaced(Paired("nav"), "<NAV>x</NAV>") == ""
  {
    var s := "<NAV>x</NAV>";
    var w := CloseTag("nav");
    assert OpensAt(s, 0, "nav");
    NotWordAt(s, 5, w, true, 0);
    FindAt(s, w, 5, 6, true);
    assert MatchEnd(Paired("nav"), s, 0) == Some(12);
  }

  /** The role pattern does not require `role` to be a whole attribute name:
      `data-role="banner"` is enough. */
  lemma DataRoleAttributeStripped()
    ensures Replaced(Role("banner"), "<a data-role=\"banner\">x</a>") == ""
  {
    DataRoleMatch();
  }

  lemma DataRoleMatch()
    ensures MatchEnd(Role("banner"), "<a data-role=\"banner\">x</a>", 0) == Some(27)
  {
    DataRoleSearches();
    RoleEndOf("<a data-role=\"banner\">x</a>", 0, "banner", 21, 23);
  }

  lemma DataRoleSearches()
    ensures RoleSearches("<a data-role=\"banner\">x</a>", 0, "banner", 21, 23)
    ensures CloseTagEnd("<a data-role=\"banner\">x</a>", 23) == Some(27)
  {
    DataRoleOpening();
    DataRoleAttribute();
    DataRoleClosing();
  }

  lemma DataRoleOpening()
    ensures var s := "<a data-role=\"banner\">x</a>"; s[0] == '<' && IsAsciiLetter(s[1])
    ensures FindChar("<a data-role=\"banner\">x</a>", '>', 2) == Some(21)
  {
    var s := "<a data-role=\"banner\">x</a>";
    assert forall j :: 2 <= j < 21 ==> s[j] != '>';
    assert s[21] == '>';
  }

  lemma DataRoleAttribute()
    ensures HasRoleAttr("<a data-role=\"banner\">x</a>", "banner", 3, 21)
  {
    var s := "<a data-role=\"banner\">x</a>";
    assert WordAt(s, 8, "role=", true);
    assert WordAt(s, 14, "banner", true);
    assert RoleAttrAt(s, 8, "banner");
  }

  lemma DataRoleClosing()
    ensures FindCloseTag("<a data-role=\"banner\">x</a>", 22) == Some(23)
    ensures CloseTagEnd("<a data-role=\"banner\">x</a>", 23) == Some(27)
  {
    var s := "<a data-role=\"banner\">x</a>";
    assert CloseTagEnd(s, 22).None?;
    assert CloseTagEnd(s, 23) == Some(27);
  }

  /** The role pattern closes at `</` letters `>`, so `</h1>`, with its digit,
      does not end the span: it runs on to `</p>`. */
  lemma RoleSpanSkipsDigitCloseTag()
    ensures MatchEnd(Role("banner"), "<p role=\"banner\"></h1>x</p>", 0) == Some(27)
  {
    RoleSkipSearches();
    RoleEndOf("<p role=\"banner\"></h1>x</p>", 0, "banner", 16, 23);
  }

  lemma RoleSkipSearches()
    ensures RoleSearches("<p role=\"banner\"></h1>x</p>", 0, "banner", 16, 23)
    ensures CloseTagEnd("<p role=\"banner\"></h1>x</p>", 23) == Some(27)
  {
    RoleSkipOpening();
    RoleSkipAttribute();
    RoleSkipClosing();
  }

  lemma RoleSkipOpening()
    ensures var s := "<p role=\"banner\"></h1>x</p>"; s[0] == '<' && IsAsciiLetter(s[1])
    ensures FindChar("<p role=\"banner\"></h1>x</p>", '>', 2) == Some(16)
  {
    var s := "<p role=\"banner\"></h1>x</p>";
    assert forall j :: 2 <= j < 16 ==> s[j] != '>';
    assert s[16] == '>';
  }

  lemma RoleSkipAttribute()
    ensures HasRoleAttr("<p role=\"banner\"></h1>x</p>", "banner", 3, 16)
  {
    var s := "<p role=\"banner\"></h1>x</p>";
    assert WordAt(s, 3, "role=", true);
    assert WordAt(s, 9, "banner", true);
    assert RoleAttrAt(s, 3, "banner");
  }

  lemma RoleSkipClosing()
    ensures FindCloseTag("<p role=\"banner\"></h1>x</p>", 17) == Some(23)
    ensures CloseTagEnd("<p role=\"banner\"></h1>x</p>", 23) == Some(27)
  {
    var s := "<p role=\"banner\"></h1>x</p>";
    assert LetterRunEnd(s, 19) == 20;
    assert CloseTagEnd(s, 17).None?;
    assert CloseTagEnd(s, 18).None?;
    assert CloseTagEnd(s, 19).None?;
    assert CloseTagEnd(s, 20).None?;
    assert CloseTagEnd(s, 21).None?;
    assert CloseTagEnd(s, 22).None?;
    assert CloseTagEnd(s, 23) == Some(27);
  }

  /** A comment is removed only after the tag passes, so a `nav` span can end at
      a closing tag hidden inside a comment, leaving the comment's tail behind. */
  lemma CommentSeenAfterTags()
    ensures Replaced(Comment, Replaced(Paired("nav"), "<nav>a<!-- </nav> -->b")) == " -->b"
  {
    var s := "<nav>a<!-- </nav> -->b";
    CommentFirstSpan();
    CommentTailInert();
    NoMatchFromSuffix(Paired("nav"), s, 17);
    assert s[17..] == " -->b";
  }

  lemma CommentFirstSpan()
    ensures MatchEnd(Paired("nav"), "<nav>a<!-- </nav> -->b", 0) == Some(17)
  {
    var s := "<nav>a<!-- </nav> -->b";
    var w := CloseTag("nav");
    assert OpensAt(s, 0, "nav");
    assert WordAt(s, 11, w, true);
    assert forall i :: 6 <= i < 12 ==> s[i] != '/';
    NoWordBetween(s, w, true, 5, 11, 1);
    FindAt(s, w, 5, 11, true);
  }

  lemma CommentTailInert()
    ensures forall p: nat :: 17 <= p < 22 ==> InertAt("<nav>a<!-- </nav> -->b", p)
    ensures Replaced(Comment, " -->b") == " -->b"
  {
    var s := "<nav>a<!-- </nav> -->b";
    var t := s[17..];
    assert t == " -->b";
    NoAngleBracket(t);
    InertSuffix(s, 17);
    NoMatchFromSuffix(Comment, t, 0);
    assert t[0..] == t;
  }

  /** The stripper is not idempotent on its own output. The comment pass runs
      last, so deleting `<!---->` from `<na<!---->v>x</nav>` joins the two
      halves of `<nav>`, and a `nav` pass of a second call then deletes that
      element. */
  lemma CommentPassJoinsTag()
    ensures Replaced(Comment, "<na<!---->v>x</nav>") == "<nav>x</nav>"
    ensures Replaced(Paired("nav"), "<nav>x</nav>") == ""
  {
    JoinedByComment("<na<!---->v>x</nav>");
    JoinedTagStripped("<nav>x</nav>");
  }

  lemma JoinedByComment(s: string)
    requires s == "<na<!---->v>x</nav>"
    ensures Replaced(Comment, s) == "<nav>x</nav>"
  {
    CommentSpanInJoin(s);
    CommentTailOfJoin(s);
    CopiedThree(Comment, s, "v>x</nav>");
    JoinedSpelling(s);
  }

  lemma JoinedSpelling(s: string)
    requires s == "<na<!---->v>x</nav>"
    ensures [s[0], s[1], s[2]] + "v>x</nav>" == "<nav>x</nav>"
  {
    assert [s[0], s[1], s[2]] == "<na";
  }

  /** A scan whose first three positions start no span copies them. */
  lemma CopiedThree(pass: Pass, s: string, rest: string)
    requires 3 <= |s| && ReplaceFrom(pass, s, 3) == rest
    requires MatchEnd(pass, s, 0).None? && MatchEnd(pass, s, 1).None? && MatchEnd(pass, s, 2).None?
    ensures ReplaceFrom(pass, s, 0) == [s[0], s[1], s[2]] + rest
  {
    assert ReplaceFrom(pass, s, 2) == [s[2]] + rest;
    assert ReplaceFrom(pass, s, 1) == [s[1]] + ([s[2]] + rest);
    assert [s[0]] + ([s[1]] + ([s[2]] + rest)) == [s[0], s[1], s[2]] + rest;
  }

  /** No comment opens where `<!` does not. */
  lemma NoCommentOpenAt(s: string, p: nat)
    requires p + 1 < |s| && (s[p] != '<' || s[p + 1] != '!')
    ensures CommentEnd(s, p).None?
  {
    if p + 4 <= |s| {
      if s[p] != '<' { NotWordAt(s, p, "<!--", false, 0); }
      else { NotWordAt(s, p, "<!--", false, 1); }
    }
  }

  lemma CommentSpanInJoin(s: string)
    requires s == "<na<!---->v>x</nav>"
    ensures MatchEnd(Comment, s, 0).None? && MatchEnd(Comment, s, 1).None?
    ensures MatchEnd(Comment, s, 2).None?
  {
    assert s[1] == 'n' && s[2] == 'a' && s[3] == '<';
    NoCommentOpenAt(s, 0);
    NoCommentOpenAt(s, 1);
    NoCommentOpenAt(s, 2);
  }

  lemma CommentOpensInJoin(s: string)
    requires s == "<na<!---->v>x</nav>"
    ensures CommentEnd(s, 3) == Some(10)
  {
    assert s[3] == '<' && s[4] == '!' && s[5] == '-' && s[6] == '-';
    assert WordAt(s, 3, "<!--", false);
    assert s[7] == '-' && s[8] == '-' && s[9] == '>';
    assert WordAt(s, 7, "-->", false);
    FindAt(s, "-->", 7, 7, false);
  }

  lemma CommentTailOfJoin(s: string)
    requires s == "<na<!---->v>x</nav>"
    ensures ReplaceFrom(Comment, s, 3) == "v>x</nav>"
  {
    var t := s[10..];
    assert t == "v>x</nav>";
    assert forall p: nat :: p < |t| && p != 3 ==> t[p] != '<';
    assert OnlyClosingMarkup(t);
    InertSuffix(s, 10);
    NoMatchFromSuffix(Comment, s, 10);
    CommentOpensInJoin(s);
    assert ReplaceFrom(Comment, s, 3) == ReplaceFrom(Comment, s, 10);
  }

  lemma JoinedTagStripped(s: string)
    requires s == "<nav>x</nav>"
    ensures Replaced(Paired("nav"), s) == ""
  {
    assert OpensAt(s, 0, "nav");
    var w := CloseTag("nav");
    assert WordAt(s, 6, w, true);
    assert !WordAt(s, 5, w, true) by { NotWordAt(s, 5, w, true, 0); }
    FindAt(s, w, 5, 6, true);
    assert MatchEnd(Paired("nav"), s, 0) == Some(12);
    assert ReplaceFrom(Paired("nav"), s, 12) == [];
  }
}
