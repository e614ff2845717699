/**
 * The name handling of the signed-in user's badge
 * (`frontend/src/components/UserProfile.jsx`): the first name shown next to
 * the avatar and the initials shown when there is no picture.
 */
module UserProfile {
  import opened Js

  /** `s.split(' ')`: the pieces between single spaces, empty pieces
      included; there is always at least one. Defined a character at a time:
      a space opens a new, empty piece; any other character joins the first
      piece of the rest. */
  function Split(s: string): (parts: seq<string>)
    ensures |parts| >= 1
  {
    if s == [] then [""]
    else if s[0] == ' ' then [""] + Split(s[1..])
    else
      var rest := Split(s[1..]);
      [[s[0]] + rest[0]] + rest[1..]
  }

  /** `parts.join(' ')`. */
  function Join(parts: seq<string>): string {
    if |parts| <= 1 then (if parts == [] then "" else parts[0])
    else parts[0] + " " + Join(parts[1..])
  }

  /** Putting a character in front of the first piece puts it in front of
      the joined text. */
  lemma JoinPrepend(c: char, parts: seq<string>)
    requires parts != []
    ensures Join([[c] + parts[0]] + parts[1..]) == [c] + Join(parts)
  {
    var q := [[c] + parts[0]] + parts[1..];
    assert q[1..] == parts[1..];
  }

  /** Joining the pieces back with single spaces gives the name again. */
  lemma {:induction false} JoinSplit(s: string)
    ensures Join(Split(s)) == s
  {
    if s != [] {
      JoinSplit(s[1..]);
      var rest := Split(s[1..]);
      if s[0] == ' ' {
        assert ([""] + rest)[1..] == rest;
      } else {
        JoinPrepend(s[0], rest);
      }
      assert s == [s[0]] + s[1..];
    }
  }

  /** A space-free piece splits to itself. */
  lemma {:induction false} SplitWord(w: string)
    requires ' ' !in w
    ensures Split(w) == [w]
  {
    if w != [] {
      assert ' ' !in w[1..] by {
        forall k | 0 <= k < |w[1..]| ensures w[1..][k] != ' ' { assert w[1..][k] == w[k + 1]; }
      }
      SplitWord(w[1..]);
      assert w == [w[0]] + w[1..];
    }
  }

  /** A space-free piece followed by a space is a piece of its own. */
  lemma {:induction false} SplitWordSpace(w: string, rest: string)
    requires ' ' !in w
    ensures Split(w + " " + rest) == [w] + Split(rest)
  {
    var s := w + " " + rest;
    if w == [] {
      assert s == [' '] + rest;
      assert s[1..] == rest;
    } else {
      assert ' ' !in w[1..] by {
        forall k | 0 <= k < |w[1..]| ensures w[1..][k] != ' ' { assert w[1..][k] == w[k + 1]; }
      }
      SplitWordSpace(w[1..], rest);
      assert s[0] == w[0] && s[1..] == w[1..] + " " + rest;
      assert w == [w[0]] + w[1..];
    }
  }

  /** Splitting space-free pieces joined with single spaces gives the
      pieces back. */
  lemma {:induction false} SplitJoin(parts: seq<string>)
    requires |parts| >= 1 && forall k :: 0 <= k < |parts| ==> ' ' !in parts[k]
    ensures Split(Join(parts)) == parts
  {
    if |parts| == 1 {
      SplitWord(parts[0]);
    } else {
      SplitJoin(parts[1..]);
      SplitWordSpace(parts[0], Join(parts[1..]));
      assert parts == [parts[0]] + parts[1..];
    }
  }

  /** The first piece is the text before the first space: a space-free
      prefix of `s` that is all of `s` or is followed by a space. */
  lemma {:induction false} FirstPiece(s: string)
    ensures var p := Split(s)[0];
      && ' ' !in p && |p| <= |s| && p == s[..|p|]
      && (|p| == |s| || s[|p|] == ' ')
  {
    if s != [] && s[0] != ' ' {
      FirstPiece(s[1..]);
    }
  }

  /** `user.name.split(' ')[0]`: the text before the first space, or the
      whole name when it has none. */
  function FirstName(name: string): (first: string)
    ensures ' ' !in first
    ensures ' ' !in name ==> first == name
    ensures ' ' in name ==> |first| < |name| && name == first + [' '] + name[|first| + 1..]
  {
    FirstPiece(name);
    var p := Split(name)[0];
    assert |p| < |name| ==> name == p + [' '] + name[|p| + 1..] by {
      if |p| < |name| {
        assert name == name[..|p|] + [name[|p|]] + name[|p| + 1..];
      }
    }
    p
  }

  /** `.map(word => word[0]).join('')`: the first character of each piece;
      an empty piece gives `undefined`, which `join` writes as nothing. */
  function Heads(words: seq<string>): (r: string)
    ensures |r| <= |words|
  {
    if words == [] then ""
    else (if words[0] == "" then "" else [words[0][0]]) + Heads(words[1..])
  }

  /** `getInitials`: the upper-cased heads of the pieces, at most two. */
  function GetInitials(name: string): (initials: string)
    ensures |initials| <= 2
  {
    var all := UpperString(Heads(Split(name)));
    if |all| <= 2 then all else all[..2]
  }

  /** The reference: the characters of `s` that start a word, that is, that
      are not a space and follow a space or the start (`atStart` says whether
      the previous character was a space or there was none). */
  function WordStarts(s: string, atStart: bool): string {
    if s == [] then ""
    else if s[0] == ' ' then WordStarts(s[1..], true)
    else (if atStart then [s[0]] else "") + WordStarts(s[1..], false)
  }

  /** The heads of all pieces are the word-start characters; the heads of
      the pieces after the first are those of a text not at a word start. */
  lemma {:induction false} HeadsAreWordStarts(s: string)
    ensures Heads(Split(s)) == WordStarts(s, true)
    ensures Heads(Split(s)[1..]) == WordStarts(s, false)
  {
    if s != [] {
      HeadsAreWordStarts(s[1..]);
      var rest := Split(s[1..]);
      if s[0] == ' ' {
        assert ([""] + rest)[1..] == rest;
      } else {
        var q := [[s[0]] + rest[0]] + rest[1..];
        assert q[1..] == rest[1..];
      }
    }
  }

  /** `getInitials` is the first two word-start characters, upper-cased. */
  lemma InitialsAreWordStarts(name: string)
    ensures var starts := WordStarts(name, true);
      GetInitials(name) == UpperString(if |starts| <= 2 then starts else starts[..2])
  {
    HeadsAreWordStarts(name);
  }

  /** `WordStarts` over a concatenation: the second part starts at a
      boundary when the first ends with a space (or is empty and did). */
  lemma {:induction false} WordStartsConcat(a: string, b: string, atStart: bool)
    ensures WordStarts(a + b, atStart) ==
      WordStarts(a, atStart) + WordStarts(b, if a == "" then atStart else a[|a| - 1] == ' ')
  {
    if a != "" {
      assert (a + b)[0] == a[0] && (a + b)[1..] == a[1..] + b;
      WordStartsConcat(a[1..], b, a[0] == ' ');
      if |a| > 1 { assert a[1..][|a| - 2] == a[|a| - 1]; }
    } else {
      assert a + b == b;
    }
  }

  /** After a space the next character starts a word. */
  lemma SpaceResets(rest: string, atStart: bool)
    ensures WordStarts([' '] + rest, atStart) == WordStarts(rest, true)
  {
    assert ([' '] + rest)[1..] == rest;
  }

  /** A second space between words changes nothing. */
  lemma RepeatedSpaceIgnored(a: string, b: string)
    ensures GetInitials(a + "  " + b) == GetInitials(a + " " + b)
  {
    var e := if a == "" then true else a[|a| - 1] == ' ';
    assert a + "  " + b == a + ([' '] + ([' '] + b));
    assert a + " " + b == a + ([' '] + b);
    WordStartsConcat(a, [' '] + ([' '] + b), true);
    WordStartsConcat(a, [' '] + b, true);
    SpaceResets([' '] + b, e);
    SpaceResets(b, true);
    SpaceResets(b, e);
    InitialsAreWordStarts(a + "  " + b);
    InitialsAreWordStarts(a + " " + b);
  }

  /** Spaces before the name change nothing. */
  lemma LeadingSpaceIgnored(name: string)
    ensures GetInitials(" " + name) == GetInitials(name)
  {
    InitialsAreWordStarts(" " + name);
    InitialsAreWordStarts(name);
    assert (" " + name)[1..] == name;
  }

  /** A name with no word (empty, or spaces only) has no initials. */
  lemma NoWordNoInitials(name: string)
    requires forall k :: 0 <= k < |name| ==> name[k] == ' '
    ensures GetInitials(name) == ""
  {
    InitialsAreWordStarts(name);
    NoWordStarts(name, true);
  }

  lemma {:induction false} NoWordStarts(s: string, atStart: bool)
    requires forall k :: 0 <= k < |s| ==> s[k] == ' '
    ensures WordStarts(s, atStart) == ""
  {
    if s != "" {
      NoWordStarts(s[1..], true);
    }
  }
}
