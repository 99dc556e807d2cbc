/**
 * The JavaScript string built-ins the utility layer relies on, written out:
 * `split` on a one-character separator, `Array.prototype.join`, `indexOf`/
 * `includes`, and `replace` with a string pattern (first occurrence only,
 * with the `$` patterns of the replacement string expanded).
 */
module JsStrings {
  import opened JsValues

  // ---------------------------------------------------------------------------
  // split / join

  /** The index of the first `c` in `s`, or `|s|` when there is none. */
  function FindChar(s: string, c: char): (r: nat)
    ensures r <= |s|
    ensures r < |s| ==> s[r] == c
    ensures forall j :: 0 <= j < r ==> s[j] != c
    decreases |s|
  {
    if |s| == 0 then 0
    else if s[0] == c then 0
    else 1 + FindChar(s[1..], c)
  }

  /** `s.split(sep)`: the pieces between separators, at least one piece. */
  function Split(s: string, sep: char): (parts: seq<string>)
    ensures |parts| >= 1
    decreases |s|
  {
    var i := FindChar(s, sep);
    if i == |s| then [s] else [s[..i]] + Split(s[i + 1..], sep)
  }

  /** `parts.join(sep)`; the empty array joins to the empty string. */
  function Join(parts: seq<string>, sep: char): string
  {
    if |parts| == 0 then ""
    else if |parts| == 1 then parts[0]
    else parts[0] + [sep] + Join(parts[1..], sep)
  }

  /** No piece of a split contains the separator. */
  lemma {:induction false} SplitPiecesFree(s: string, sep: char)
    ensures forall i :: 0 <= i < |Split(s, sep)| ==> sep !in Split(s, sep)[i]
    decreases |s|
  {
    var k := FindChar(s, sep);
    if k < |s| {
      SplitPiecesFree(s[k + 1..], sep);
      var rest := Split(s[k + 1..], sep);
      assert Split(s, sep) == [s[..k]] + rest;
      forall i | 0 <= i < |Split(s, sep)| ensures sep !in Split(s, sep)[i] {
        if i > 0 {
          assert Split(s, sep)[i] == rest[i - 1];
        }
      }
    }
  }

  /** Splitting a string that does not contain the separator gives that string alone. */
  lemma SplitNoSeparator(s: string, sep: char)
    requires sep !in s
    ensures Split(s, sep) == [s]
  {
  }

  /** A separator-free first piece is split off at the first separator. */
  lemma SplitFirstPiece(piece: string, rest: string, sep: char)
    requires sep !in piece
    ensures Split(piece + [sep] + rest, sep) == [piece] + Split(rest, sep)
  {
    var s := piece + [sep] + rest;
    var k := FindChar(s, sep);
    assert s[|piece|] == sep;
    assert forall j :: 0 <= j < |piece| ==> s[j] == piece[j];
    assert k == |piece|;
    assert s[..k] == piece && s[k + 1..] == rest;
  }

  /** Joining the pieces of a split restores the string. */
  lemma {:induction false} JoinSplit(s: string, sep: char)
    ensures Join(Split(s, sep), sep) == s
    decreases |s|
  {
    var k := FindChar(s, sep);
    if k < |s| {
      var rest := Split(s[k + 1..], sep);
      JoinSplit(s[k + 1..], sep);
      assert Split(s, sep) == [s[..k]] + rest;
      assert ([s[..k]] + rest)[1..] == rest;
      assert s == s[..k] + [sep] + s[k + 1..];
    }
  }

  /** Splitting a join of separator-free pieces gives the pieces back. */
  lemma {:induction false} SplitJoin(parts: seq<string>, sep: char)
    requires |parts| >= 1
    requires forall i :: 0 <= i < |parts| ==> sep !in parts[i]
    ensures Split(Join(parts, sep), sep) == parts
    decreases |parts|
  {
    if |parts| == 1 {
      SplitNoSeparator(parts[0], sep);
    } else {
      SplitJoin(parts[1..], sep);
      SplitFirstPiece(parts[0], Join(parts[1..], sep), sep);
      assert [parts[0]] + parts[1..] == parts;
    }
  }

  // ---------------------------------------------------------------------------
  // indexOf / includes

  /** `pat` occurs in `s` starting at index `j`. */
  predicate OccursAt(s: string, pat: string, j: int)
  {
    0 <= j && j + |pat| <= |s| && s[j..j + |pat|] == pat
  }

  function IndexFrom(s: string, pat: string, from: nat): (r: Option<nat>)
    requires from <= |s|
    ensures r.Some? ==> from <= r.value && OccursAt(s, pat, r.value)
    ensures r.Some? ==> forall j :: from <= j < r.value ==> !OccursAt(s, pat, j)
    ensures r.None? ==> forall j :: from <= j ==> !OccursAt(s, pat, j)
    decreases |s| - from
  {
    if OccursAt(s, pat, from) then Some(from)
    else if from == |s| then None
    else IndexFrom(s, pat, from + 1)
  }

  /** `s.indexOf(pat)`, with `None` for JavaScript's `-1`: the first occurrence. */
  function IndexOf(s: string, pat: string): (r: Option<nat>)
    ensures r.Some? ==> OccursAt(s, pat, r.value)
    ensures r.Some? ==> forall j :: 0 <= j < r.value ==> !OccursAt(s, pat, j)
    ensures r.None? ==> forall j :: !OccursAt(s, pat, j)
  {
    IndexFrom(s, pat, 0)
  }

  /** `s.includes(pat)`. */
  predicate Includes(s: string, pat: string)
  {
    IndexOf(s, pat).Some?
  }

  /** The first occurrence of `pat` is at `i` when it occurs there and `pat`'s first character does not appear earlier. */
  lemma FirstOccurrence(s: string, pat: string, i: nat)
    requires OccursAt(s, pat, i)
    requires |pat| > 0 && pat[0] !in s[..i]
    ensures IndexOf(s, pat) == Some(i)
  {
    forall j | 0 <= j < i
      ensures !OccursAt(s, pat, j)
    {
      assert s[..i][j] == s[j];
      assert s[j] != pat[0];
      assert j + |pat| <= |s| ==> s[j..j + |pat|][0] == s[j];
    }
  }

  // ---------------------------------------------------------------------------
  // replace

  /**
   * The replacement text that `replace` inserts for the string `repl`: `$$`
   * stands for `$`, `$&` for the matched text, `` $` `` for the text before
   * the match and `$'` for the text after it; any other `$` is literal (a
   * string pattern has no capture groups, so `$1` and `$<` stay as written).
   */
  function Expand(repl: string, matched: string, before: string, after: string): (r: string)
    ensures '$' !in repl ==> r == repl
    decreases |repl|
  {
    if |repl| == 0 then ""
    else if repl[0] == '$' && |repl| >= 2 && repl[1] == '$' then "$" + Expand(repl[2..], matched, before, after)
    else if repl[0] == '$' && |repl| >= 2 && repl[1] == '&' then matched + Expand(repl[2..], matched, before, after)
    else if repl[0] == '$' && |repl| >= 2 && repl[1] == '`' then before + Expand(repl[2..], matched, before, after)
    else if repl[0] == '$' && |repl| >= 2 && repl[1] == '\'' then after + Expand(repl[2..], matched, before, after)
    else
      assert '$' !in repl ==> '$' !in repl[1..] && repl == [repl[0]] + repl[1..];
      [repl[0]] + Expand(repl[1..], matched, before, after)
  }

  /** `s.replace(pat, repl)` for a string `pat`: only the first occurrence is replaced. */
  function Replace(s: string, pat: string, repl: string): (r: string)
    ensures IndexOf(s, pat).None? ==> r == s
    ensures forall i :: IndexOf(s, pat) == Some(i) && '$' !in repl ==> r == s[..i] + repl + s[i + |pat|..]
    ensures forall i :: IndexOf(s, pat) == Some(i) ==>
      i + (|s| - i - |pat|) <= |r| && r[..i] == s[..i] && r[|r| - (|s| - i - |pat|)..] == s[i + |pat|..]
  {
    match IndexOf(s, pat)
    case None => s
    case Some(i) => s[..i] + Expand(repl, pat, s[..i], s[i + |pat|..]) + s[i + |pat|..]
  }

  /**
   * Each `$` pattern at the head of a replacement string stands for its own
   * piece and the rest of the string is expanded after it.
   */
  lemma ExpandPatterns(rest: string, matched: string, before: string, after: string)
    ensures Expand("$$" + rest, matched, before, after) == "$" + Expand(rest, matched, before, after)
    ensures Expand("$&" + rest, matched, before, after) == matched + Expand(rest, matched, before, after)
    ensures Expand("$`" + rest, matched, before, after) == before + Expand(rest, matched, before, after)
    ensures Expand("$'" + rest, matched, before, after) == after + Expand(rest, matched, before, after)
  {
    assert ("$$" + rest)[2..] == rest;
    assert ("$&" + rest)[2..] == rest;
    assert ("$`" + rest)[2..] == rest;
    assert ("$'" + rest)[2..] == rest;
  }

  /**
   * A `$` followed by any character other than `$`, `&`, `` ` `` or `'` (as in
   * `$1`: a string pattern has no capture groups) stays as written.
   */
  lemma ExpandUnknownPattern(repl: string, matched: string, before: string, after: string)
    requires |repl| >= 2 && repl[0] == '$'
    requires repl[1] != '$' && repl[1] != '&' && repl[1] != '`' && repl[1] != '\''
    ensures Expand(repl, matched, before, after) == repl[..2] + Expand(repl[2..], matched, before, after)
  {
    ExpandLiteralHead(repl, matched, before, after);
    ExpandLiteralHead(repl[1..], matched, before, after);
    assert repl[1..][1..] == repl[2..];
    assert repl[..2] == [repl[0]] + [repl[1..][0]];
  }

  /** A `$` that ends the replacement string stays as written. */
  lemma ExpandTrailingDollar(lit: string, matched: string, before: string, after: string)
    requires '$' !in lit
    ensures Expand(lit + "$", matched, before, after) == lit + "$"
  {
    ExpandLiteralRun(lit, "$", matched, before, after);
    ExpandLiteralHead("$", matched, before, after);
    assert "$"[1..] == "";
  }

  /** A first character that does not start one of the four patterns is copied as it is. */
  lemma ExpandLiteralHead(repl: string, matched: string, before: string, after: string)
    requires |repl| >= 1
    requires repl[0] == '$' ==> |repl| == 1 || (repl[1] != '$' && repl[1] != '&' && repl[1] != '`' && repl[1] != '\'')
    ensures Expand(repl, matched, before, after) == [repl[0]] + Expand(repl[1..], matched, before, after)
  {
  }

  /** A run of text without `$` at the head of a replacement string is copied as it is. */
  lemma {:induction false} ExpandLiteralRun(lit: string, rest: string, matched: string, before: string, after: string)
    requires '$' !in lit
    ensures Expand(lit + rest, matched, before, after) == lit + Expand(rest, matched, before, after)
    decreases |lit|
  {
    if |lit| > 0 {
      assert (lit + rest)[0] == lit[0] && (lit + rest)[1..] == lit[1..] + rest;
      assert lit[0] in lit;
      ExpandLiteralRun(lit[1..], rest, matched, before, after);
      assert lit == [lit[0]] + lit[1..];
    } else {
      assert lit + rest == rest;
    }
  }

  /** Replacing the first occurrence by `$&`, the matched text itself, leaves the string as it was. */
  lemma ReplaceMatchedText(s: string, pat: string)
    ensures Replace(s, pat, "$&") == s
  {
    match IndexOf(s, pat)
    case None =>
    case Some(i) =>
      ExpandPatterns("", pat, s[..i], s[i + |pat|..]);
      assert "$&" + "" == "$&";
      assert s[i..i + |pat|] == pat;
      assert s == s[..i] + s[i..i + |pat|] + s[i + |pat|..];
  }

  /**
   * `` $` `` in the replacement string stands for the text before the first
   * occurrence and `$'` for the text after it.
   */
  lemma ReplaceSurroundingText(s: string, pat: string, i: nat)
    requires IndexOf(s, pat) == Some(i)
    ensures Replace(s, pat, "$`") == s[..i] + s[..i] + s[i + |pat|..]
    ensures Replace(s, pat, "$'") == s[..i] + s[i + |pat|..] + s[i + |pat|..]
  {
    var before, after := s[..i], s[i + |pat|..];
    assert Expand("$`", pat, before, after) == before by {
      ExpandPatterns("", pat, before, after);
      assert "$`" + "" == "$`";
    }
    assert Expand("$'", pat, before, after) == after by {
      ExpandPatterns("", pat, before, after);
      assert "$'" + "" == "$'";
    }
  }

  /** Removing a leading marker with `replace(marker, "")` leaves the rest of the string. */
  lemma RemovePrefix(marker: string, rest: string)
    requires |marker| > 0
    ensures Replace(marker + rest, marker, "") == rest
  {
    var s := marker + rest;
    assert OccursAt(s, marker, 0) by { assert s[0..|marker|] == marker; }
    assert s[|marker|..] == rest;
  }
}
