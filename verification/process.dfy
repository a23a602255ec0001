/**
 * src/bresse/process.py: the text transforms around an LLM call.
 *  - PostprocessResult cleans a raw completion into a SAN candidate.
 *  - PreprocessGame trims a PGN text into the prompt for the next move.
 * Strings are sequences of Unicode code points, as Python's str is.
 */
module Process {

  /** The characters Python's str.isspace() accepts, which str.strip() removes. */
  predicate IsSpace(c: char) {
    || ('\t' <= c <= '\r')
    || ('\U{1C}' <= c <= ' ')
    || c == '\U{85}' || c == '\U{A0}' || c == '\U{1680}'
    || ('\U{2000}' <= c <= '\U{200A}')
    || c == '\U{2028}' || c == '\U{2029}' || c == '\U{202F}' || c == '\U{205F}' || c == '\U{3000}'
  }

  // ---------------------------------------------------------------------------
  // str.strip()
  // ---------------------------------------------------------------------------

  /** Python's str.lstrip(): the suffix left after dropping the longest whitespace prefix. */
  function StripLeft(s: string): (r: string)
    ensures |r| <= |s| && r == s[|s| - |r|..]
    ensures forall i | 0 <= i < |s| - |r| :: IsSpace(s[i])
    ensures r != [] ==> !IsSpace(r[0])
  {
    if s != [] && IsSpace(s[0]) then
      var r := StripLeft(s[1..]);
      assert forall i | 1 <= i < |s| :: s[1..][i - 1] == s[i];
      r
    else s
  }

  /** Python's str.rstrip(): the prefix left after dropping the longest whitespace suffix. */
  function StripRight(s: string): (r: string)
    ensures |r| <= |s| && r == s[..|r|]
    ensures forall i | |r| <= i < |s| :: IsSpace(s[i])
    ensures r != [] ==> !IsSpace(r[|r| - 1])
  {
    if s != [] && IsSpace(s[|s| - 1]) then StripRight(s[..|s| - 1]) else s
  }

  /** Python's str.strip(). */
  function Strip(s: string): string {
    StripRight(StripLeft(s))
  }

  /** Stripping leaves a string that neither starts nor ends with whitespace, and is empty exactly for blank input. */
  lemma StripBounds(s: string)
    ensures var r := Strip(s);
      && |r| <= |s|
      && (r != [] ==> !IsSpace(r[0]) && !IsSpace(r[|r| - 1]))
      && (r == [] <==> forall i | 0 <= i < |s| :: IsSpace(s[i]))
  {
    var l := StripLeft(s);
    var r := StripRight(l);
    if r != [] {
      assert r[0] == l[0];
    }
  }

  /** A string without whitespace at either end is its own strip. */
  lemma StripUnchanged(s: string)
    requires s != [] ==> !IsSpace(s[0]) && !IsSpace(s[|s| - 1])
    ensures Strip(s) == s
  {
  }

  /** Whitespace in front of a suffix that starts with non-whitespace is all lstrip removes. */
  lemma {:induction false} StripLeftAppend(a: string, b: string)
    requires b != [] && !IsSpace(b[0])
    ensures StripLeft(a + b) == StripLeft(a) + b
  {
    if a == [] {
      assert a + b == b;
    } else if IsSpace(a[0]) {
      assert (a + b)[1..] == a[1..] + b;
      StripLeftAppend(a[1..], b);
    }
  }

  /** Text followed by a suffix that starts and ends with non-whitespace strips on the left only. */
  lemma StripAppend(a: string, b: string)
    requires b != [] && !IsSpace(b[0]) && !IsSpace(b[|b| - 1])
    ensures Strip(a + b) == StripLeft(a) + b
  {
    StripLeftAppend(a, b);
    var c := StripLeft(a) + b;
    assert c[|c| - 1] == b[|b| - 1];
    StripRightKeeps(c);
  }

  /** One leading whitespace character before non-whitespace ends is all that strip removes. */
  lemma StripOneLeading(s: string)
    requires |s| >= 2 && IsSpace(s[0]) && !IsSpace(s[1]) && !IsSpace(s[|s| - 1])
    ensures Strip(s) == s[1..]
  {
    StripRightKeeps(s[1..]);
  }

  /** One trailing whitespace character after non-whitespace ends is all that strip removes. */
  lemma StripOneTrailing(s: string)
    requires |s| >= 2 && !IsSpace(s[0]) && IsSpace(s[|s| - 1]) && !IsSpace(s[|s| - 2])
    ensures Strip(s) == s[..|s| - 1]
  {
    StripRightKeeps(s[..|s| - 1]);
  }

  /** Text that does not end in whitespace is its own rstrip. */
  lemma StripRightKeeps(s: string)
    requires s != [] && !IsSpace(s[|s| - 1])
    ensures StripRight(s) == s
  {
  }

  // ---------------------------------------------------------------------------
  // str.split(" ")[0] and str.replace(old, new)
  // ---------------------------------------------------------------------------

  /** Python's s.split(" ")[0]: everything before the first space character, or all of s. */
  function FirstField(s: string): (r: string)
    ensures |r| <= |s| && r == s[..|r|]
    ensures ' ' !in r
    ensures |r| < |s| ==> s[|r|] == ' '
  {
    if s == [] || s[0] == ' ' then [] else [s[0]] + FirstField(s[1..])
  }

  /** pat occurs in s at index p. */
  predicate OccursAt(s: string, pat: string, p: nat) {
    p + |pat| <= |s| && s[p..p + |pat|] == pat
  }

  /** pat occurs nowhere in s. */
  ghost predicate Free(s: string, pat: string) {
    forall p: nat :: !OccursAt(s, pat, p)
  }

  /** A three-character occurrence, character by character. */
  lemma Occurs3(s: string, pat: string, p: nat)
    requires |pat| == 3
    ensures OccursAt(s, pat, p) <==> p + 3 <= |s| && s[p] == pat[0] && s[p + 1] == pat[1] && s[p + 2] == pat[2]
  {
    if p + 3 <= |s| {
      assert s[p..p + 3] == [s[p], s[p + 1], s[p + 2]];
      assert pat == [pat[0], pat[1], pat[2]];
    }
  }

  /**
   * Python's s.replace(pat, rep) for a non-empty pattern: scan left to right,
   * replace each occurrence and resume after it, so occurrences never overlap.
   */
  function Replace(s: string, pat: string, rep: string): string
    requires pat != []
    decreases |s|
  {
    if |s| < |pat| then s
    else if s[..|pat|] == pat then rep + Replace(s[|pat|..], pat, rep)
    else [s[0]] + Replace(s[1..], pat, rep)
  }

  /**
   * With a same-length replacement that only turns `from` into `to`, every
   * character of the result is the input's, or a `from` turned into `to`.
   */
  lemma {:induction false} ReplaceOnlyChanges(s: string, pat: string, rep: string, from: char, to: char)
    requires pat != [] && |pat| == |rep|
    requires forall k | 0 <= k < |pat| :: rep[k] == pat[k] || (pat[k] == from && rep[k] == to)
    ensures |Replace(s, pat, rep)| == |s|
    ensures forall i | 0 <= i < |s| :: Replace(s, pat, rep)[i] == s[i] || (s[i] == from && Replace(s, pat, rep)[i] == to)
  {
    var r := Replace(s, pat, rep);
    if |s| < |pat| {
    } else if s[..|pat|] == pat {
      ReplaceOnlyChanges(s[|pat|..], pat, rep, from, to);
      forall i | 0 <= i < |s| ensures r[i] == s[i] || (s[i] == from && r[i] == to) {
        if i < |pat| {
          assert r[i] == rep[i] && s[i] == pat[i];
        } else {
          assert r[i] == Replace(s[|pat|..], pat, rep)[i - |pat|];
        }
      }
    } else {
      ReplaceOnlyChanges(s[1..], pat, rep, from, to);
      forall i | 0 <= i < |s| ensures r[i] == s[i] || (s[i] == from && r[i] == to) {
        if i > 0 {
          assert r[i] == Replace(s[1..], pat, rep)[i - 1];
        }
      }
    }
  }

  /** Replacing a pattern that does not occur changes nothing. */
  lemma {:induction false} ReplaceFree(s: string, pat: string, rep: string)
    requires pat != [] && Free(s, pat)
    ensures Replace(s, pat, rep) == s
  {
    if |s| >= |pat| {
      assert !OccursAt(s, pat, 0);
      forall p: nat ensures !OccursAt(s[1..], pat, p) {
        assert !OccursAt(s, pat, p + 1);
        if p + |pat| <= |s| - 1 {
          assert s[1..][p..p + |pat|] == s[p + 1..p + 1 + |pat|];
        }
      }
      ReplaceFree(s[1..], pat, rep);
    }
  }

  /** A pattern whose first character is absent cannot be replaced. */
  lemma {:induction false} ReplaceAbsent(s: string, pat: string, rep: string)
    requires pat != [] && pat[0] !in s
    ensures Replace(s, pat, rep) == s
  {
    if |s| >= |pat| {
      assert s[..|pat|][0] == s[0];
      ReplaceAbsent(s[1..], pat, rep);
    }
  }

  /** Replacing a single character by a different one removes it entirely. */
  lemma {:induction false} ReplaceCharRemoves(s: string, c: char, d: char)
    requires c != d
    ensures c !in Replace(s, [c], [d])
  {
    if |s| >= 1 {
      ReplaceCharRemoves(s[1..], c, d);
    }
  }

  /** A same-length replacement keeps the length. */
  lemma {:induction false} ReplaceLength(s: string, pat: string, rep: string)
    requires pat != [] && |pat| == |rep|
    ensures |Replace(s, pat, rep)| == |s|
  {
    if |s| < |pat| {
    } else if s[..|pat|] == pat {
      ReplaceLength(s[|pat|..], pat, rep);
    } else {
      ReplaceLength(s[1..], pat, rep);
    }
  }

  /** The first two characters of a replacement result. */
  lemma ReplaceHead(s: string, pat: string, rep: string)
    requires pat != [] && |pat| == |rep| && s != []
    ensures |Replace(s, pat, rep)| == |s|
    ensures Replace(s, pat, rep)[0] == if OccursAt(s, pat, 0) then rep[0] else s[0]
    ensures |s| >= 2 && !OccursAt(s, pat, 0) ==>
      Replace(s, pat, rep)[1] == Replace(s[1..], pat, rep)[0]
  {
    ReplaceLength(s, pat, rep);
    ReplaceLength(s[1..], pat, rep);
    if |s| >= 2 && |s| < |pat| {
      ReplaceLength(s[1..], pat, rep);
      assert Replace(s[1..], pat, rep) == s[1..];
    }
  }

  /**
   * For a three-character pattern a?a and a replacement none of whose
   * characters can start or end a new occurrence (as with "0-0" to "O-O"),
   * the left-to-right scan leaves no occurrence behind.
   */
  lemma {:induction false} ReplaceLeavesNone(s: string, pat: string, rep: string)
    requires |pat| == 3 && |rep| == 3 && pat[0] == pat[2]
    requires rep[0] != pat[0] && rep[1] != pat[0] && rep[2] != pat[0] && rep[0] != pat[1]
    ensures Free(Replace(s, pat, rep), pat)
  {
    var r := Replace(s, pat, rep);
    ReplaceLength(s, pat, rep);
    if |s| < 3 {
      forall p: nat ensures !OccursAt(r, pat, p) { }
    } else if s[..3] == pat {
      ReplaceLeavesNone(s[3..], pat, rep);
      NoneAfterReplaced(Replace(s[3..], pat, rep), pat, rep);
      assert r == rep + Replace(s[3..], pat, rep);
    } else {
      ReplaceLeavesNone(s[1..], pat, rep);
      NoneAfterKept(s, pat, rep);
    }
  }

  /** An occurrence cannot start inside the replacement text, nor in an occurrence-free rest. */
  lemma NoneAfterReplaced(rt: string, pat: string, rep: string)
    requires |pat| == 3 && |rep| == 3
    requires rep[0] != pat[0] && rep[1] != pat[0] && rep[2] != pat[0]
    requires Free(rt, pat)
    ensures Free(rep + rt, pat)
  {
    var r := rep + rt;
    forall p: nat ensures !OccursAt(r, pat, p) {
      Occurs3(r, pat, p);
      if p + 3 <= |r| {
        if p < 3 {
          assert r[p] == rep[p];
        } else {
          assert r[p] == rt[p - 3] && r[p + 1] == rt[p - 2] && r[p + 2] == rt[p - 1];
          assert !OccursAt(rt, pat, p - 3);
          Occurs3(rt, pat, p - 3);
        }
      }
    }
  }

  /** A character kept in front of an occurrence-free rest cannot start an occurrence either. */
  lemma NoneAfterKept(s: string, pat: string, rep: string)
    requires |pat| == 3 && |rep| == 3 && pat[0] == pat[2]
    requires rep[0] != pat[0] && rep[1] != pat[0] && rep[2] != pat[0] && rep[0] != pat[1]
    requires |s| >= 3 && s[..3] != pat
    requires Free(Replace(s[1..], pat, rep), pat)
    ensures Free([s[0]] + Replace(s[1..], pat, rep), pat)
  {
    var t := s[1..];
    var rt := Replace(t, pat, rep);
    var r := [s[0]] + rt;
    ReplaceLength(t, pat, rep);
    forall p: nat ensures !OccursAt(r, pat, p) {
      Occurs3(r, pat, p);
      if p + 3 <= |r| {
        if p == 0 {
          Occurs3(s, pat, 0);
          ReplaceHead(t, pat, rep);
          ReplaceHead(t[1..], pat, rep);
          Occurs3(t, pat, 0);
          Occurs3(t[1..], pat, 0);
          assert r[1] == rt[0] && r[2] == rt[1];
        } else {
          assert r[p] == rt[p - 1] && r[p + 1] == rt[p] && r[p + 2] == rt[p + 1];
          assert !OccursAt(rt, pat, p - 1);
          Occurs3(rt, pat, p - 1);
        }
      }
    }
  }

  /** Under a replacement that only turns `from` into `to`, a pattern without `to` cannot appear anew. */
  lemma KeepsFree(s: string, pat: string, rep: string, from: char, to: char, q: string)
    requires pat != [] && |pat| == |rep|
    requires forall k | 0 <= k < |pat| :: rep[k] == pat[k] || (pat[k] == from && rep[k] == to)
    requires to !in q && Free(s, q)
    ensures Free(Replace(s, pat, rep), q)
  {
    var r := Replace(s, pat, rep);
    ReplaceOnlyChanges(s, pat, rep, from, to);
    forall p: nat ensures !OccursAt(r, q, p) {
      if p + |q| <= |r| {
        assert !OccursAt(s, q, p);
        forall k | 0 <= k < |q| ensures r[p + k] == q[k] ==> s[p + k] == q[k] {
        }
        ghost var rq := r[p..p + |q|];
        ghost var sq := s[p..p + |q|];
        assert rq == q ==> sq == q;
      }
    }
  }

  // ---------------------------------------------------------------------------
  // postprocess_result
  // ---------------------------------------------------------------------------

  const EnDash: char := '\U{2013}'

  /**
   * postprocess_result: strip, keep what precedes the first space, turn en-dashes
   * into hyphens, then rewrite "0-0" and "o-o" as "O-O" (left to right, without overlap).
   */
  function PostprocessResult(raw: string): string {
    var token := FirstField(Strip(raw));
    Replace(Replace(Replace(token, [EnDash], "-"), "0-0", "O-O"), "o-o", "O-O")
  }

  /** The three replacements keep the token's length and only turn characters into '-' or 'O'. */
  lemma ReplacementsOnlyChange(token: string)
    ensures var a := Replace(token, [EnDash], "-");
      var b := Replace(a, "0-0", "O-O");
      var c := Replace(b, "o-o", "O-O");
      && |c| == |token|
      && forall i | 0 <= i < |c| :: c[i] == token[i] || c[i] == '-' || c[i] == 'O'
  {
    var a := Replace(token, [EnDash], "-");
    var b := Replace(a, "0-0", "O-O");
    ReplaceOnlyChanges(token, [EnDash], "-", EnDash, '-');
    ReplaceOnlyChanges(a, "0-0", "O-O", '0', 'O');
    ReplaceOnlyChanges(b, "o-o", "O-O", 'o', 'O');
  }

  /**
   * The normalised text is a single token (no space), no longer than the raw
   * text, does not start with whitespace, and is empty for blank input.
   */
  lemma NormalisedToken(raw: string)
    ensures var r := PostprocessResult(raw);
      && |r| <= |raw|
      && ' ' !in r
      && (r != [] ==> !IsSpace(r[0]))
      && ((forall i | 0 <= i < |raw| :: IsSpace(raw[i])) ==> r == [])
  {
    var token := FirstField(Strip(raw));
    StripBounds(raw);
    ReplacementsOnlyChange(token);
    if token != [] {
      assert token[0] == Strip(raw)[0];
    }
  }

  /** Under a replacement that only turns `from` into `to`, a character other than `to` cannot appear anew. */
  lemma KeepsAbsent(s: string, pat: string, rep: string, from: char, to: char, c: char)
    requires pat != [] && |pat| == |rep|
    requires forall k | 0 <= k < |pat| :: rep[k] == pat[k] || (pat[k] == from && rep[k] == to)
    requires c != to && c !in s
    ensures c !in Replace(s, pat, rep)
  {
    ReplaceOnlyChanges(s, pat, rep, from, to);
  }

  /** The two castling rewrites, applied to a text without en-dashes, leave none behind. */
  lemma CastlingRewritesKeepNoEnDash(a: string)
    requires EnDash !in a
    ensures EnDash !in Replace(Replace(a, "0-0", "O-O"), "o-o", "O-O")
  {
    KeepsAbsent(a, "0-0", "O-O", '0', 'O', EnDash);
    KeepsAbsent(Replace(a, "0-0", "O-O"), "o-o", "O-O", 'o', 'O', EnDash);
  }

  /** No en-dash survives normalisation. */
  lemma NormalisedNoEnDash(raw: string)
    ensures EnDash !in PostprocessResult(raw)
  {
    var token := FirstField(Strip(raw));
    ReplaceCharRemoves(token, EnDash, '-');
    CastlingRewritesKeepNoEnDash(Replace(token, [EnDash], "-"));
  }

  /** After both castling rewrites, neither "0-0" nor "o-o" occurs. */
  lemma CastlingRewritesLeaveNone(a: string)
    ensures var c := Replace(Replace(a, "0-0", "O-O"), "o-o", "O-O");
      Free(c, "0-0") && Free(c, "o-o")
  {
    var b := Replace(a, "0-0", "O-O");
    ReplaceLeavesNone(a, "0-0", "O-O");
    ReplaceLeavesNone(b, "o-o", "O-O");
    KeepsFree(b, "o-o", "O-O", 'o', 'O', "0-0");
  }

  /** Neither "0-0" nor "o-o" survives normalisation. */
  lemma NormalisedNoZeroCastling(raw: string)
    ensures Free(PostprocessResult(raw), "0-0") && Free(PostprocessResult(raw), "o-o")
  {
    CastlingRewritesLeaveNone(Replace(FirstField(Strip(raw)), [EnDash], "-"));
  }

  /** s.split(" ")[0] when the first space is at index i (or there is none and i == |s|). */
  lemma {:induction false} FirstFieldUpTo(s: string, i: nat)
    requires i <= |s| && ' ' !in s[..i] && (i < |s| ==> s[i] == ' ')
    ensures FirstField(s) == s[..i]
  {
    if i > 0 {
      assert s[0] == s[..i][0];
      assert s[1..][..i - 1] == s[..i][1..];
      FirstFieldUpTo(s[1..], i - 1);
    }
  }

  /** A token with nothing to rewrite (no en-dash, no '0', no 'o') is the normalised text. */
  lemma NormalisedPlainToken(raw: string, token: string)
    requires FirstField(Strip(raw)) == token
    requires EnDash !in token && '0' !in token && 'o' !in token
    ensures PostprocessResult(raw) == token
  {
    ReplaceAbsent(token, [EnDash], "-");
    ReplaceAbsent(token, "0-0", "O-O");
    ReplaceAbsent(token, "o-o", "O-O");
  }

  /** The comment's first example: ' O-O Bc' becomes 'O-O'. */
  lemma ExampleLeadingSpace(raw: string)
    requires raw == " O-O Bc"
    ensures PostprocessResult(raw) == "O-O"
  {
    var stripped := raw[1..];
    var token := "O-O";
    StripOneLeading(raw);
    FirstFieldUpTo(stripped, 3);
    assert stripped[..3] == token;
    NormalisedPlainToken(raw, token);
  }

  /** A single word with no whitespace at either end and no space is its own token. */
  lemma PlainWord(raw: string)
    requires raw != [] && !IsSpace(raw[0]) && !IsSpace(raw[|raw| - 1]) && ' ' !in raw
    ensures FirstField(Strip(raw)) == raw
  {
    StripUnchanged(raw);
    FirstFieldUpTo(raw, |raw|);
    assert raw[..|raw|] == raw;
  }

  /** A pattern at the front of a text too short to hold a second one is replaced once. */
  lemma ReplaceOnce(s: string, pat: string, rep: string)
    requires pat != [] && OccursAt(s, pat, 0) && |s| < 2 * |pat|
    ensures Replace(s, pat, rep) == rep + s[|pat|..]
  {
    assert s[..|pat|] == pat;
    var rest := s[|pat|..];
    assert Replace(rest, pat, rep) == rest;
  }

  /** Zero-castling is rewritten with letters, so "0-0" merges with "O-O". */
  lemma ExampleZeroCastling(raw: string)
    requires raw == "0-0"
    ensures PostprocessResult(raw) == "O-O"
  {
    PlainWord(raw);
    ReplaceAbsent(raw, [EnDash], "-");
    assert OccursAt(raw, "0-0", 0);
    ReplaceOnce(raw, "0-0", "O-O");
    assert "O-O" + raw[3..] == "O-O";
    ReplaceAbsent("O-O", "o-o", "O-O");
  }

  /** The lower-case form is rewritten too. */
  lemma ExampleLowerCaseCastling(raw: string)
    requires raw == "o-o"
    ensures PostprocessResult(raw) == "O-O"
  {
    PlainWord(raw);
    ReplaceAbsent(raw, [EnDash], "-");
    ReplaceAbsent(raw, "0-0", "O-O");
    assert OccursAt(raw, "o-o", 0);
    ReplaceOnce(raw, "o-o", "O-O");
    assert "O-O" + raw[3..] == "O-O";
  }

  /**
   * Left-to-right, non-overlapping replacement: the long-castling form "0-0-0"
   * becomes "O-O-0", not "O-O-O".
   */
  lemma ExampleLongCastlingKeepsZero(raw: string)
    requires raw == "0-0-0"
    ensures PostprocessResult(raw) == "O-O-0"
  {
    PlainWord(raw);
    ReplaceAbsent(raw, [EnDash], "-");
    assert OccursAt(raw, "0-0", 0);
    ReplaceOnce(raw, "0-0", "O-O");
    var b := "O-O" + raw[3..];
    assert b == "O-O-0";
    ReplaceAbsent(b, "o-o", "O-O");
  }

  /** Normalising again changes nothing, as long as the first pass did not leave trailing whitespace. */
  lemma Idempotent(raw: string)
    requires var r := PostprocessResult(raw); r != [] ==> !IsSpace(r[|r| - 1])
    ensures PostprocessResult(PostprocessResult(raw)) == PostprocessResult(raw)
  {
    var r := PostprocessResult(raw);
    NormalisedToken(raw);
    NormalisedNoEnDash(raw);
    NormalisedNoZeroCastling(raw);
    StripUnchanged(r);
    assert FirstField(r) == r;
    ReplaceAbsent(r, [EnDash], "-");
    ReplaceFree(r, "0-0", "O-O");
    ReplaceFree(r, "o-o", "O-O");
  }

  /** Conversely, a first result that ends in whitespace is shortened by a second pass. */
  lemma NotIdempotentWithTrailingSpace(raw: string)
    requires var r := PostprocessResult(raw); r != [] && IsSpace(r[|r| - 1])
    ensures PostprocessResult(PostprocessResult(raw)) != PostprocessResult(raw)
  {
    var r := PostprocessResult(raw);
    var stripped := Strip(r);
    StripBounds(r);
    ReplacementsOnlyChange(FirstField(stripped));
  }

  /** A tab before the first space survives normalisation. */
  lemma ExampleTabKept(raw: string)
    requires raw == "e4\t x"
    ensures PostprocessResult(raw) == "e4\t"
  {
    StripUnchanged(raw);
    FirstFieldUpTo(raw, 3);
    assert raw[..3] == "e4\t";
    NormalisedPlainToken(raw, "e4\t");
  }

  /** A trailing tab is stripped. */
  lemma ExampleTabStripped(t: string)
    requires t == "e4\t"
    ensures PostprocessResult(t) == "e4"
  {
    var u := t[..2];
    assert u == "e4";
    StripOneTrailing(t);
    FirstFieldUpTo(u, 2);
    assert u[..2] == u;
    NormalisedPlainToken(t, u);
  }

  /** Normalisation is therefore not idempotent in general. */
  lemma NotIdempotentWithTab(raw: string)
    requires raw == "e4\t x"
    ensures PostprocessResult(PostprocessResult(raw)) != PostprocessResult(raw)
  {
    ExampleTabKept(raw);
    ExampleTabStripped(PostprocessResult(raw));
  }

  // ---------------------------------------------------------------------------
  // preprocess_game
  // ---------------------------------------------------------------------------

  /** Python's s[:-k], which for k == 0 is the empty string. */
  function DropLast(s: string, k: nat): (r: string)
    ensures |r| <= |s| && r == s[..|r|]
    ensures k == 0 || k > |s| ==> r == []
    ensures 0 < k <= |s| ==> |r| == |s| - k
  {
    if k == 0 || k > |s| then [] else s[..|s| - k]
  }

  function DigitChar(d: nat): char
    requires d < 10
  {
    "0123456789"[d]
  }

  function DigitValue(c: char): nat {
    if '0' <= c <= '9' then (c as int - '0' as int) as nat else 0
  }

  /** f"{n}": the decimal digits of n, without leading zeros. */
  function Decimal(n: nat): (r: string)
    ensures r != []
    ensures forall i | 0 <= i < |r| :: '0' <= r[i] <= '9'
    ensures |r| > 1 ==> r[0] != '0'
  {
    if n < 10 then [DigitChar(n)] else Decimal(n / 10) + [DigitChar(n % 10)]
  }

  /** int(s) for a string of decimal digits. */
  function ParseDecimal(s: string): nat {
    if s == [] then 0 else ParseDecimal(s[..|s| - 1]) * 10 + DigitValue(s[|s| - 1])
  }

  /** The move number written into the prompt reads back as the number. */
  lemma {:induction false} DecimalRoundTrip(n: nat)
    ensures ParseDecimal(Decimal(n)) == n
  {
    var d := DigitChar(n % 10);
    assert DigitValue(d) == n % 10;
    if n >= 10 {
      DecimalRoundTrip(n / 10);
      assert (Decimal(n / 10) + [d])[..|Decimal(n)| - 1] == Decimal(n / 10);
    }
  }

  /** f"{count_move}.": the next move number and a dot; it neither starts nor ends with whitespace. */
  function MoveNumberSuffix(mainlineLength: nat): (r: string)
    ensures r != [] && !IsSpace(r[0]) && !IsSpace(r[|r| - 1])
  {
    var digits := Decimal(mainlineLength / 2 + 1);
    assert (digits + ".")[0] == digits[0];
    digits + "."
  }

  /** The prompt before the final strip: the cut text, plus the move number when White is to move. */
  function Unstripped(cut: string, mainlineLength: nat): string {
    if mainlineLength % 2 == 0 then cut + MoveNumberSuffix(mainlineLength) else cut
  }

  /** What the final strip leaves of the unstripped prompt. */
  lemma StripPrompt(cut: string, mainlineLength: nat)
    ensures var r := Strip(Unstripped(cut, mainlineLength));
      && (mainlineLength % 2 == 0 ==> r == StripLeft(cut) + Decimal(mainlineLength / 2 + 1) + ".")
      && (r != [] ==> !IsSpace(r[0]) && !IsSpace(r[|r| - 1]))
  {
    StripBounds(Unstripped(cut, mainlineLength));
    if mainlineLength % 2 == 0 {
      var digits := Decimal(mainlineLength / 2 + 1);
      var suffix := MoveNumberSuffix(mainlineLength);
      StripAppend(cut, suffix);
      assert suffix == digits + ".";
      assert StripLeft(cut) + suffix == StripLeft(cut) + digits + ".";
    }
  }

  /**
   * preprocess_game, given the text of the game (str(game)), the number of
   * mainline moves and the value of its Result header: cut the result off the
   * end, append the next move number and a dot when White is to move, strip.
   */
  function PreprocessGame(gameText: string, mainlineLength: nat, resultHeader: string): (r: string)
    ensures mainlineLength % 2 == 1 ==> r == Strip(DropLast(gameText, |resultHeader|))
    ensures mainlineLength % 2 == 0 ==>
      r == StripLeft(DropLast(gameText, |resultHeader|)) + Decimal(mainlineLength / 2 + 1) + "."
    ensures r != [] ==> !IsSpace(r[0]) && !IsSpace(r[|r| - 1])
  {
    var cut := DropLast(gameText, |resultHeader|);
    StripPrompt(cut, mainlineLength);
    Strip(Unstripped(cut, mainlineLength))
  }

  /** With White to move, the prompt ends in the next move number and a dot. */
  lemma PromptEndsWithMoveNumber(gameText: string, mainlineLength: nat, resultHeader: string)
    requires mainlineLength % 2 == 0
    ensures var r := PreprocessGame(gameText, mainlineLength, resultHeader);
      var tail := Decimal(mainlineLength / 2 + 1) + ".";
      |tail| <= |r| && r[|r| - |tail|..] == tail
      && ParseDecimal(r[|r| - |tail|..|r| - 1]) == mainlineLength / 2 + 1
  {
    var digits := Decimal(mainlineLength / 2 + 1);
    var head := StripLeft(DropLast(gameText, |resultHeader|));
    assert PreprocessGame(gameText, mainlineLength, resultHeader) == head + digits + ".";
    TailSlices(head, digits);
    DecimalRoundTrip(mainlineLength / 2 + 1);
  }

  /** The last characters of head + digits + ".". */
  lemma TailSlices(head: string, digits: string)
    ensures var r := head + digits + ".";
      r[|r| - (|digits| + 1)..] == digits + "." && r[|r| - (|digits| + 1)..|r| - 1] == digits
  {
    var r := head + digits + ".";
    assert r[|head|..] == digits + ".";
    assert r[|head|..|r| - 1] == digits;
  }
}
