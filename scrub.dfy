/**
 * The pattern-removal passes of `sanitizeString`. Each regular expression is
 * modelled as a matcher giving the length of its match at a position (0 for
 * none); `replace` with a global pattern and an empty replacement removes the
 * leftmost match, resumes right after it, and so on to the end.
 *
 * The passes, in the order the source applies them:
 *  - ScriptBlock: `<script`, a word boundary, then everything up to and
 *    including the first `</script>`;
 *  - EventHandler: optional white space, `on` and one or more word
 *    characters, `=` with optional white space around it, then a quoted
 *    value (either quote character at either end);
 *  - JsScheme: `javascript:` with the white space around it;
 *  - Tag(name): `<`, an optional `/`, the tag name, then everything up to
 *    and including the next `>`; once per name in DangerousTags.
 * Every letter is compared without regard to ASCII case (the `i` flag).
 */
module Scrub {
  import opened Js

  datatype Pattern =
    | ScriptBlock
    | EventHandler
    | JsScheme
    | Tag(name: string)

  const DangerousTags: seq<string> :=
    ["script", "object", "embed", "iframe", "form", "input", "button"]

  /** `w` occurs at `s[i..]`, letters compared without case. */
  predicate CiAt(s: string, i: nat, w: string) {
    i + |w| <= |s| && forall k :: 0 <= k < |w| ==> Lower(s[i + k]) == Lower(w[k])
  }

  predicate IsQuote(c: char) {
    c == '"' || c == '\''
  }

  /** End of the run of white space starting at `i`. */
  function SkipSpaces(s: string, i: nat): (j: nat)
    requires i <= |s|
    ensures i <= j <= |s|
    ensures forall k :: i <= k < j ==> IsSpace(s[k])
    ensures j == |s| || !IsSpace(s[j])
    decreases |s| - i
  {
    if i < |s| && IsSpace(s[i]) then SkipSpaces(s, i + 1) else i
  }

  /** End of the run of word characters starting at `i`. */
  function SkipWord(s: string, i: nat): (j: nat)
    requires i <= |s|
    ensures i <= j <= |s|
    ensures forall k :: i <= k < j ==> IsWordChar(s[k])
    ensures j == |s| || !IsWordChar(s[j])
    decreases |s| - i
  {
    if i < |s| && IsWordChar(s[i]) then SkipWord(s, i + 1) else i
  }

  /** First position at or after `i` holding `c`; `|s|` when there is none. */
  function FindChar(s: string, i: nat, c: char): (j: nat)
    requires i <= |s|
    ensures i <= j <= |s|
    ensures forall k :: i <= k < j ==> s[k] != c
    ensures j < |s| ==> s[j] == c
    decreases |s| - i
  {
    if i == |s| || s[i] == c then i else FindChar(s, i + 1, c)
  }

  /** First position at or after `i` holding a quote character. */
  function FindQuote(s: string, i: nat): (j: nat)
    requires i <= |s|
    ensures i <= j <= |s|
    ensures forall k :: i <= k < j ==> !IsQuote(s[k])
    ensures j < |s| ==> IsQuote(s[j])
    decreases |s| - i
  {
    if i == |s| || IsQuote(s[i]) then i else FindQuote(s, i + 1)
  }

  /** First position at or after `i` where `w` occurs without case; `|s|`
      when there is none. */
  function FindCi(s: string, i: nat, w: string): (j: nat)
    requires i <= |s| && w != []
    ensures i <= j <= |s|
    ensures forall k :: i <= k < j ==> !CiAt(s, k, w)
    ensures j < |s| ==> CiAt(s, j, w)
    decreases |s| - i
  {
    if i == |s| || CiAt(s, i, w) then i else FindCi(s, i + 1, w)
  }

  /** The script-block pattern at `s[i]`: `<script`, a word boundary, and
      everything up to and including the first `</script>` after it. */
  function ScriptBlockAt(s: string, i: nat): (n: nat)
    requires i <= |s|
    ensures i + n <= |s|
    ensures n > 0 ==> n >= 9 && CiAt(s, i, "<script") && CiAt(s, i + n - 9, "</script>")
  {
    if CiAt(s, i, "<script") && (i + 7 == |s| || !IsWordChar(s[i + 7])) then
      var k := FindCi(s, i + 7, "</script>");
      if k < |s| then k + 9 - i else 0
    else 0
  }

  /** The event-handler pattern at `s[i]`: optional white space, `on`, word
      characters, `=` between optional white space, then a quoted value. */
  function EventHandlerAt(s: string, i: nat): (n: nat)
    requires i <= |s|
    ensures i + n <= |s|
    ensures n > 0 ==> IsQuote(s[i + n - 1]) && '=' in s[i..i + n]
  {
    var j := SkipSpaces(s, i);
    if !CiAt(s, j, "on") then 0
    else
      var w := SkipWord(s, j + 2);
      if w == j + 2 then 0
      else
        var m := SkipSpaces(s, w);
        if m == |s| || s[m] != '=' then 0
        else
          var q := SkipSpaces(s, m + 1);
          if q == |s| || !IsQuote(s[q]) then 0
          else
            var e := FindQuote(s, q + 1);
            if e == |s| then 0
            else
              InSlice(s, i, e + 1, m);
              e + 1 - i
  }

  /** A character of `s[a..b]` is in that slice. */
  lemma InSlice(s: string, a: nat, b: nat, k: nat)
    requires a <= k < b <= |s|
    ensures s[k] in s[a..b]
  {
    assert s[a..b][k - a] == s[k];
  }

  /** The `javascript:` pattern at `s[i]`, with the white space around it. */
  function JsSchemeAt(s: string, i: nat): (n: nat)
    requires i <= |s|
    ensures i + n <= |s|
    ensures n > 0 ==> exists j :: i <= j && j + 11 <= i + n && CiAt(s, j, "javascript:")
  {
    var j := SkipSpaces(s, i);
    if CiAt(s, j, "javascript:") then SkipSpaces(s, j + 11) - i else 0
  }

  /** The tag pattern for `t` at `s[i]`: `<`, an optional `/`, `t`, and
      everything up to and including the next `>`. */
  function TagAt(t: string, s: string, i: nat): (n: nat)
    requires i <= |s|
    ensures i + n <= |s|
    ensures n > 0 ==> s[i] == '<' && s[i + n - 1] == '>'
  {
    if i < |s| && s[i] == '<' then
      var j := if i + 1 < |s| && s[i + 1] == '/' then i + 2 else i + 1;
      if CiAt(s, j, t) then
        var k := FindChar(s, j + |t|, '>');
        if k < |s| then k + 1 - i else 0
      else 0
    else 0
  }

  /** Length of the match of `p` that starts at `s[i]`, or 0 for none. */
  function MatchLength(p: Pattern, s: string, i: nat): (n: nat)
    requires i <= |s|
    ensures i + n <= |s|
  {
    match p
    case ScriptBlock => ScriptBlockAt(s, i)
    case EventHandler => EventHandlerAt(s, i)
    case JsScheme => JsSchemeAt(s, i)
    case Tag(t) => TagAt(t, s, i)
  }

  /** `s[i..]` with every match of `p` found by a left-to-right scan removed. */
  function RemoveFrom(p: Pattern, s: string, i: nat): (r: string)
    requires i <= |s|
    ensures |r| <= |s| - i
    ensures |r| == |s| - i ==> r == s[i..]
    decreases |s| - i
  {
    if i == |s| then []
    else
      var n := MatchLength(p, s, i);
      if n > 0 then RemoveFrom(p, s, i + n) else [s[i]] + RemoveFrom(p, s, i + 1)
  }

  /** `s.replace(p, '')` with a global pattern. */
  function RemoveAll(p: Pattern, s: string): (r: string)
    ensures |r| <= |s|
    ensures |r| == |s| ==> r == s
  {
    RemoveFrom(p, s, 0)
  }

  /** A removal changes nothing exactly when the pattern matches nowhere. */
  lemma RemoveFromKeepsIff(p: Pattern, s: string, i: nat)
    requires i <= |s|
    ensures RemoveFrom(p, s, i) == s[i..] <==> forall k :: i <= k < |s| ==> MatchLength(p, s, k) == 0
  {
    if RemoveFrom(p, s, i) == s[i..] {
      KeptMeansNoMatch(p, s, i);
    } else if forall k :: i <= k < |s| ==> MatchLength(p, s, k) == 0 {
      NoMatchMeansKept(p, s, i);
    }
  }

  lemma {:induction false} KeptMeansNoMatch(p: Pattern, s: string, i: nat)
    requires i <= |s| && RemoveFrom(p, s, i) == s[i..]
    ensures forall k :: i <= k < |s| ==> MatchLength(p, s, k) == 0
    decreases |s| - i
  {
    if i < |s| {
      assert MatchLength(p, s, i) == 0 by {
        if MatchLength(p, s, i) > 0 {
          MatchShortens(p, s, i);
          assert false;
        }
      }
      assert RemoveFrom(p, s, i + 1) == s[i + 1..] by {
        assert RemoveFrom(p, s, i) == [s[i]] + RemoveFrom(p, s, i + 1);
        assert s[i..] == [s[i]] + s[i + 1..];
      }
      KeptMeansNoMatch(p, s, i + 1);
      assert forall k :: i + 1 <= k < |s| ==> MatchLength(p, s, k) == 0;
    }
  }

  /** A match at `i` makes the result shorter than `s[i..]`. */
  lemma MatchShortens(p: Pattern, s: string, i: nat)
    requires i < |s| && MatchLength(p, s, i) > 0
    ensures |RemoveFrom(p, s, i)| < |s| - i
  {
  }

  lemma {:induction false} NoMatchMeansKept(p: Pattern, s: string, i: nat)
    requires i <= |s| && forall k :: i <= k < |s| ==> MatchLength(p, s, k) == 0
    ensures RemoveFrom(p, s, i) == s[i..]
    decreases |s| - i
  {
    if i < |s| {
      assert MatchLength(p, s, i) == 0;
      NoMatchMeansKept(p, s, i + 1);
      assert s[i..] == [s[i]] + s[i + 1..];
    }
  }

  /** Applies the removals of `ps`, first to last. */
  function RemoveEach(ps: seq<Pattern>, s: string): (r: string)
    ensures |r| <= |s|
    ensures |r| == |s| ==> r == s
    decreases |ps|
  {
    if ps == [] then s else RemoveAll(ps[|ps| - 1], RemoveEach(ps[..|ps| - 1], s))
  }

  function TagPatterns(tags: seq<string>): (ps: seq<Pattern>)
    ensures |ps| == |tags|
    ensures forall i :: 0 <= i < |tags| ==> ps[i] == Tag(tags[i])
  {
    seq(|tags|, i requires 0 <= i < |tags| => Tag(tags[i]))
  }

  /** Every pass of `sanitizeString` before the final `trim`, in order. */
  const Passes: seq<Pattern> := [ScriptBlock, EventHandler, JsScheme] + TagPatterns(DangerousTags)

  /** Running one more pattern of `ps` extends the result by one removal. */
  lemma RemoveEachStep(ps: seq<Pattern>, n: nat, s: string)
    requires n < |ps|
    ensures RemoveEach(ps[..n + 1], s) == RemoveAll(ps[n], RemoveEach(ps[..n], s))
  {
    assert ps[..n + 1][..n] == ps[..n];
  }

  lemma PassesShape()
    ensures |Passes| == 3 + |DangerousTags|
    ensures forall i :: 0 <= i < |DangerousTags| ==> Passes[3 + i] == Tag(DangerousTags[i])
  {
  }

  /** The passes as the source runs them: three replacements, then one per
      dangerous tag inside a loop that reassigns the working string. */
  method StripDangerous(input: string) returns (sanitized: string)
    ensures sanitized == RemoveEach(Passes, input)
    ensures |sanitized| <= |input|
  {
    sanitized := RemoveAll(ScriptBlock, input);
    sanitized := RemoveAll(EventHandler, sanitized);
    sanitized := RemoveAll(JsScheme, sanitized);
    FirstThreePasses(input);
    PassesShape();
    for i := 0 to |DangerousTags|
      invariant sanitized == RemoveEach(Passes[..3 + i], input)
    {
      RemoveEachStep(Passes, 3 + i, input);
      sanitized := RemoveAll(Tag(DangerousTags[i]), sanitized);
    }
    assert Passes[..3 + |DangerousTags|] == Passes;
  }

  /** When the passes change nothing, no single pass changes anything. */
  lemma {:induction false} FixpointOfEach(ps: seq<Pattern>, s: string, m: nat)
    requires RemoveEach(ps, s) == s && m < |ps|
    ensures RemoveAll(ps[m], s) == s
    decreases |ps|
  {
    var front := ps[..|ps| - 1];
    var u := RemoveEach(front, s);
    assert |RemoveAll(ps[|ps| - 1], u)| == |u|;
    assert u == s;
    if m < |ps| - 1 {
      FixpointOfEach(front, s, m);
      assert front[m] == ps[m];
    }
  }

  /** The passes repeated until a round changes nothing. */
  function Scrubbed(s: string): (r: string)
    ensures RemoveEach(Passes, r) == r
    ensures |r| <= |s|
    decreases |s|
  {
    var t := RemoveEach(Passes, s);
    if t == s then s else Scrubbed(t)
  }

  /** No dangerous tag is left once the passes have reached a fixpoint. */
  lemma ScrubbedHasNoTag(s: string)
    ensures forall t, k :: t in DangerousTags && 0 <= k <= |Scrubbed(s)| ==> MatchLength(Tag(t), Scrubbed(s), k) == 0
  {
    var r := Scrubbed(s);
    forall t, k | t in DangerousTags && 0 <= k <= |r|
      ensures MatchLength(Tag(t), r, k) == 0
    {
      var m :| 0 <= m < |DangerousTags| && DangerousTags[m] == t;
      assert Passes[3 + m] == Tag(t);
      FixpointOfEach(Passes, r, 3 + m);
      RemoveFromKeepsIff(Tag(t), r, 0);
    }
  }

  /** A tag found in an infix of `s` is a tag of `s` itself: the matcher
      only looks forward, and the `>` that closes it is still there. */
  lemma TagInInfix(t: string, s: string, u: string, a: nat, k: nat)
    requires a + |u| <= |s| && u == s[a..a + |u|] && k <= |u|
    ensures MatchLength(Tag(t), u, k) > 0 ==> MatchLength(Tag(t), s, a + k) > 0
  {
    if TagAt(t, u, k) > 0 {
      var j := if k + 1 < |u| && u[k + 1] == '/' then k + 2 else k + 1;
      assert s[a + k] == u[k] && (k + 1 < |u| ==> s[a + k + 1] == u[k + 1]);
      assert CiAt(s, a + j, t) by { CiAtInfix(s, u, a, j, t); }
      assert FindChar(s, a + j + |t|, '>') < |s| by { FindCharInfix(s, u, a, j + |t|, '>'); }
    }
  }

  /** A word found in an infix is found in the whole string. */
  lemma CiAtInfix(s: string, u: string, a: nat, j: nat, w: string)
    requires a + |u| <= |s| && u == s[a..a + |u|] && CiAt(u, j, w)
    ensures CiAt(s, a + j, w)
  {
    forall q | 0 <= q < |w| ensures Lower(s[a + j + q]) == Lower(w[q]) {
      assert s[a + j + q] == u[j + q];
    }
  }

  /** A character found in an infix is found no later in the whole string. */
  lemma FindCharInfix(s: string, u: string, a: nat, i: nat, c: char)
    requires a + |u| <= |s| && u == s[a..a + |u|] && i <= |u| && FindChar(u, i, c) < |u|
    ensures FindChar(s, a + i, c) <= a + FindChar(u, i, c)
  {
    var e := FindChar(u, i, c);
    assert s[a + e] == u[e];
  }

  /** The first three passes of `Passes`, spelled out. */
  lemma FirstThreePasses(s: string)
    ensures RemoveEach(Passes[..3], s) == RemoveAll(JsScheme, RemoveAll(EventHandler, RemoveAll(ScriptBlock, s)))
  {
    var p3 := Passes[..3];
    assert p3 == [ScriptBlock, EventHandler, JsScheme];
    var p2 := [ScriptBlock, EventHandler];
    var p1 := [ScriptBlock];
    assert p3[..2] == p2 && p2[..1] == p1 && p1[..0] == [];
    assert RemoveEach(p1, s) == RemoveAll(ScriptBlock, s);
    assert RemoveEach(p2, s) == RemoveAll(EventHandler, RemoveEach(p1, s));
  }

  /** Passes after the first `n` that change nothing can be dropped. */
  lemma {:induction false} UnchangedTail(ps: seq<Pattern>, s: string, n: nat)
    requires n <= |ps|
    requires forall m :: n <= m < |ps| ==> RemoveAll(ps[m], RemoveEach(ps[..n], s)) == RemoveEach(ps[..n], s)
    ensures RemoveEach(ps, s) == RemoveEach(ps[..n], s)
    decreases |ps|
  {
    if n < |ps| {
      var front := ps[..|ps| - 1];
      assert front[..n] == ps[..n];
      forall m | n <= m < |front| ensures RemoveAll(front[m], RemoveEach(front[..n], s)) == RemoveEach(front[..n], s) {
        assert front[m] == ps[m];
      }
      UnchangedTail(front, s, n);
    } else {
      assert ps[..n] == ps;
    }
  }

  /** The counterexample to "no dangerous tag is left": removing the inner
      `<script>` in one pass joins the outer pieces into a new one. */
  lemma SinglePassLeavesScriptTag()
    ensures RemoveEach(Passes, "<scr<script>ipt>") == "<script>"
    ensures MatchLength(Tag("script"), "<script>", 0) == 8
  {
    var x := "<scr<script>ipt>";
    var y := "<script>";
    FirstFourOnCounterexample(x);
    LaterTagsKeep(y);
    UnchangedTail(Passes, x, 4);
    assert MatchLength(Tag("script"), y, 0) == 8 by {
      assert CiAt(y, 1, "script");
      assert FindChar(y, 7, '>') == 7;
    }
  }

  lemma FirstFourOnCounterexample(x: string)
    requires x == "<scr<script>ipt>"
    ensures RemoveEach(Passes[..4], x) == "<script>"
  {
    CounterexampleLacks(x);
    FirstThreeKeep(x);
    FourthPass(x);
    TagScanStep(x);
  }

  /** A text without `/`, `=` or `:` passes the first three patterns
      unchanged. */
  lemma FirstThreeKeep(s: string)
    requires '/' !in s && '=' !in s && ':' !in s
    ensures RemoveEach(Passes[..3], s) == s
  {
    NoMatchWithout(ScriptBlock, s, '/');
    NoMatchWithout(EventHandler, s, '=');
    NoMatchWithout(JsScheme, s, ':');
    FirstThreePasses(s);
  }

  /** The fourth pass removes `script` tags. */
  lemma FourthPass(s: string)
    ensures RemoveEach(Passes[..4], s) == RemoveAll(Tag("script"), RemoveEach(Passes[..3], s))
  {
    RemoveEachStep(Passes, 3, s);
    assert Passes[3] == Tag("script");
  }

  /** The counterexample has no `/`, `=` or `:`. */
  lemma CounterexampleLacks(x: string)
    requires x == "<scr<script>ipt>"
    ensures '/' !in x && '=' !in x && ':' !in x
  {
  }

  /** None of the tag passes after `script` touches `<script>`. */
  lemma LaterTagsKeep(y: string)
    requires y == "<script>"
    ensures forall m :: 4 <= m < |Passes| ==> RemoveAll(Passes[m], y) == y
  {
    LaterTagsKeepEach(y);
    PassesShape();
    forall m | 4 <= m < |Passes| ensures RemoveAll(Passes[m], y) == y {
      assert Passes[m] == Tag(DangerousTags[m - 3]);
    }
  }

  lemma LaterTagsKeepEach(y: string)
    requires y == "<script>"
    ensures forall t :: t in DangerousTags[1..] ==> RemoveAll(Tag(t), y) == y
  {
    assert DangerousTags[1..] == ["object", "embed", "iframe", "form", "input", "button"];
    forall t | t in DangerousTags[1..] ensures RemoveAll(Tag(t), y) == y {
      var m := if t == "iframe" || t == "input" then 1 else 0;
      assert t[m] !in y && Upper(t[m]) !in y;
      NoTagWithout(t, y, m);
    }
  }

  /** The `script` pass on the counterexample: the first character is kept,
      the next three too, the inner `<script>` goes, the rest is kept. */
  lemma TagScanStep(x: string)
    requires x == "<scr<script>ipt>"
    ensures RemoveAll(Tag("script"), x) == "<script>"
  {
    var p := Tag("script");
    CounterexampleTags(x);
    CounterexampleBrackets(x);
    assert RemoveFrom(p, x, 0) == [x[0]] + RemoveFrom(p, x, 1);
    ScanShape(p, x, 1, 4);
    assert [x[0]] + x[1..4] + x[12..] == "<script>";
  }

  /** Where the `script` tag matches in the counterexample. */
  lemma CounterexampleTags(x: string)
    requires x == "<scr<script>ipt>"
    ensures TagAt("script", x, 0) == 0 && TagAt("script", x, 4) == 8
  {
    assert TagAt("script", x, 0) == 0 by {
      assert x[1] != '/';
      assert Lower(x[4]) != Lower("script"[3]);
      assert !CiAt(x, 1, "script");
    }
    assert TagAt("script", x, 4) == 8 by {
      assert x[5] != '/';
      assert CiAt(x, 5, "script");
      assert FindChar(x, 11, '>') == 11;
    }
  }

  /** Where the counterexample has no `<`. */
  lemma CounterexampleBrackets(x: string)
    requires x == "<scr<script>ipt>"
    ensures |x| == 16
    ensures forall k :: 1 <= k < 4 ==> x[k] != '<'
    ensures forall k :: 12 <= k < 16 ==> x[k] != '<'
  {
  }

  /** A tag pass over `s[i..]` with one match, at `j`, and no other `<`
      outside it removes exactly that match. */
  lemma ScanShape(p: Pattern, s: string, i: nat, j: nat)
    requires p.Tag? && i <= j < |s| && MatchLength(p, s, j) > 0
    requires forall k :: i <= k < j ==> s[k] != '<'
    requires forall k :: j + MatchLength(p, s, j) <= k < |s| ==> s[k] != '<'
    ensures RemoveFrom(p, s, i) == s[i..j] + s[j + MatchLength(p, s, j)..]
  {
    var n := MatchLength(p, s, j);
    assert RemoveFrom(p, s, j + n) == s[j + n..] by { NoOpenBracket(p, s, j + n); }
    assert RemoveFrom(p, s, j) == RemoveFrom(p, s, j + n);
    KeepsUpTo(p, s, i, j);
  }

  /** A tag pass keeps a stretch without `<` as it is. */
  lemma {:induction false} KeepsUpTo(p: Pattern, s: string, i: nat, j: nat)
    requires p.Tag? && i <= j <= |s|
    requires forall k :: i <= k < j ==> s[k] != '<'
    ensures RemoveFrom(p, s, i) == s[i..j] + RemoveFrom(p, s, j)
    decreases j - i
  {
    if i < j {
      KeepOne(p, s, i);
      KeepsUpTo(p, s, i + 1, j);
      SliceCons(s, i, j);
      JoinKept(RemoveFrom(p, s, i), s[i], RemoveFrom(p, s, i + 1), s[i + 1..j], RemoveFrom(p, s, j));
    } else {
      EmptySlice(s, i, RemoveFrom(p, s, i));
    }
  }

  lemma SliceCons(s: string, i: nat, j: nat)
    requires i < j <= |s|
    ensures s[i..j] == [s[i]] + s[i + 1..j]
  {
  }

  lemma EmptySlice(s: string, i: nat, r: string)
    requires i <= |s|
    ensures r == s[i..i] + r
  {
  }

  lemma JoinKept(r0: string, c: char, r1: string, mid: string, rest: string)
    requires r0 == [c] + r1 && r1 == mid + rest
    ensures r0 == ([c] + mid) + rest
  {
  }

  lemma KeepOne(p: Pattern, s: string, i: nat)
    requires p.Tag? && i < |s| && s[i] != '<'
    ensures RemoveFrom(p, s, i) == [s[i]] + RemoveFrom(p, s, i + 1)
  {
    assert MatchLength(p, s, i) == 0;
  }

  /** A tag pass changes nothing after the last `<`. */
  lemma NoOpenBracket(p: Pattern, s: string, i: nat)
    requires p.Tag? && i <= |s|
    requires forall k :: i <= k < |s| ==> s[k] != '<'
    ensures RemoveFrom(p, s, i) == s[i..]
  {
    RemoveFromKeepsIff(p, s, i);
  }

  /** Each of the first three patterns needs a character that `s` lacks:
      `/` in `</script>`, `=` in an event handler, `:` in `javascript:`. */
  lemma NoMatchWithout(p: Pattern, s: string, c: char)
    requires (p == ScriptBlock && c == '/') || (p == EventHandler && c == '=') || (p == JsScheme && c == ':')
    requires c !in s
    ensures RemoveAll(p, s) == s
  {
    forall k | 0 <= k < |s| ensures MatchLength(p, s, k) == 0 {
      if MatchLength(p, s, k) > 0 {
        match p {
          case ScriptBlock => ScriptBlockHasSlash(s, k);
          case EventHandler =>
          case JsScheme => JsSchemeHasColon(s, k);
        }
        assert false;
      }
    }
    RemoveFromKeepsIff(p, s, 0);
  }

  lemma ScriptBlockHasSlash(s: string, k: nat)
    requires k <= |s| && ScriptBlockAt(s, k) > 0
    ensures '/' in s
  {
    var j := k + ScriptBlockAt(s, k) - 9;
    assert Lower(s[j + 1]) == Lower("</script>"[1]);
    assert s[j + 1] == '/';
  }

  lemma JsSchemeHasColon(s: string, k: nat)
    requires k <= |s| && JsSchemeAt(s, k) > 0
    ensures ':' in s
  {
    var j :| k <= j && j + 11 <= k + JsSchemeAt(s, k) && CiAt(s, j, "javascript:");
    assert Lower(s[j + 10]) == Lower("javascript:"[10]);
    assert s[j + 10] == ':';
  }

  /** A tag needs every letter of its name: with the letter at `m` absent
      from `s` in either case, the tag's pass changes nothing. */
  lemma NoTagWithout(t: string, s: string, m: nat)
    requires m < |t| && 'a' <= t[m] <= 'z'
    requires t[m] !in s && Upper(t[m]) !in s
    ensures RemoveAll(Tag(t), s) == s
  {
    forall k | 0 <= k < |s| ensures MatchLength(Tag(t), s, k) == 0 {
      if TagAt(t, s, k) > 0 {
        var j := if k + 1 < |s| && s[k + 1] == '/' then k + 2 else k + 1;
        assert CiAt(s, j, t);
        LowerMatch(s[j + m], t[m]);
        assert false;
      }
    }
    RemoveFromKeepsIff(Tag(t), s, 0);
  }

  lemma LowerMatch(c: char, d: char)
    requires 'a' <= d <= 'z' && Lower(c) == Lower(d)
    ensures c == d || c == Upper(d)
  {
  }

  /** An infix of a string without dangerous tags has none either. */
  lemma InfixKeepsTagFree(s: string, u: string, a: nat)
    requires a + |u| <= |s| && u == s[a..a + |u|]
    requires forall t, k :: t in DangerousTags && 0 <= k <= |s| ==> MatchLength(Tag(t), s, k) == 0
    ensures forall t, k :: t in DangerousTags && 0 <= k <= |u| ==> MatchLength(Tag(t), u, k) == 0
  {
    forall t, k | t in DangerousTags && 0 <= k <= |u| ensures MatchLength(Tag(t), u, k) == 0 {
      TagInInfix(t, s, u, a, k);
    }
  }
}
