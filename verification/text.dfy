/**
 * Text normalization and policy segmentation (app/nlp/preprocessing.py).
 *
 * Text is modelled over ASCII: `str.lower` maps only 'A'..'Z', and the
 * whitespace class `\s` (and `str.strip`) is the ASCII characters for which
 * `str.isspace` holds: space, tab, newline, vertical tab, form feed,
 * carriage return and the four separators 0x1C..0x1F.
 */
module Text {

  /** Pieces of the policy shorter than this are not kept as segments. */
  const MinSegmentLength: nat := 25

  predicate IsSpace(c: char) {
    c == ' ' || '\t' <= c <= '\r' || '\U{001C}' <= c <= '\U{001F}'
  }

  predicate IsUpper(c: char) {
    'A' <= c <= 'Z'
  }

  /** The character class `[a-z0-9]`. */
  predicate IsLowerAlnum(c: char) {
    'a' <= c <= 'z' || '0' <= c <= '9'
  }

  function LowerChar(c: char): char {
    if IsUpper(c) then (c as int - 'A' as int + 'a' as int) as char else c
  }

  /** A letter or digit of the input, whatever its case. */
  predicate IsAlnum(c: char) {
    IsLowerAlnum(LowerChar(c))
  }

  // ---------------------------------------------------------------------------
  // normalize_text, one step per line of the source

  /** `text.lower()` */
  function Lower(s: string): string {
    seq(|s|, i requires 0 <= i < |s| => LowerChar(s[i]))
  }

  /** `re.sub(r"[^a-z0-9\s]", " ", text)` */
  function ReplaceNonWord(s: string): string {
    seq(|s|, i requires 0 <= i < |s| => if IsLowerAlnum(s[i]) || IsSpace(s[i]) then s[i] else ' ')
  }

  /**
   * `re.sub(r"\s+", " ", text)`: every maximal run of whitespace becomes one
   * space. `afterSpace` says whether the previous character was whitespace.
   */
  function Collapse(s: string, afterSpace: bool): string
    decreases |s|
  {
    if s == [] then []
    else if IsSpace(s[0]) then (if afterSpace then [] else [' ']) + Collapse(s[1..], true)
    else [s[0]] + Collapse(s[1..], false)
  }

  function StripLeft(s: string): (r: string)
    ensures |r| <= |s|
  {
    if s != [] && IsSpace(s[0]) then StripLeft(s[1..]) else s
  }

  function StripRight(s: string): string {
    if s != [] && IsSpace(s[|s| - 1]) then StripRight(s[..|s| - 1]) else s
  }

  /** StripLeft removes a run of whitespace from the front and nothing else. */
  lemma {:induction false} StripLeftSuffix(s: string)
    ensures |StripLeft(s)| <= |s| && StripLeft(s) == s[|s| - |StripLeft(s)|..]
    ensures StripLeft(s) == [] || !IsSpace(StripLeft(s)[0])
    ensures forall i :: 0 <= i < |s| - |StripLeft(s)| ==> IsSpace(s[i])
  {
    if s != [] && IsSpace(s[0]) {
      var t := s[1..];
      StripLeftSuffix(t);
      var r := StripLeft(t);
      assert StripLeft(s) == r;
      assert s[|s| - |r|..] == t[|t| - |r|..];
      forall i | 0 <= i < |s| - |r| ensures IsSpace(s[i]) {
        if i > 0 {
          assert s[i] == t[i - 1];
        }
      }
    }
  }

  /** StripRight removes a run of whitespace from the back and nothing else. */
  lemma {:induction false} StripRightPrefix(s: string)
    ensures |StripRight(s)| <= |s| && StripRight(s) == s[..|StripRight(s)|]
    ensures StripRight(s) == [] || !IsSpace(StripRight(s)[|StripRight(s)| - 1])
    ensures forall i :: |StripRight(s)| <= i < |s| ==> IsSpace(s[i])
  {
    if s != [] && IsSpace(s[|s| - 1]) {
      var t := s[..|s| - 1];
      StripRightPrefix(t);
      var r := StripRight(t);
      assert StripRight(s) == r;
      assert s[..|r|] == t[..|r|];
      forall i | |r| <= i < |s| ensures IsSpace(s[i]) {
        if i < |t| {
          assert s[i] == t[i];
        }
      }
    }
  }

  /** `text.strip()` */
  function Strip(s: string): string {
    StripRight(StripLeft(s))
  }

  /** The canonical form: only `[a-z0-9 ]`, no space at either end, no two spaces in a row. */
  predicate OnlyWordsAndSpaces(s: string) {
    forall i :: 0 <= i < |s| ==> IsLowerAlnum(s[i]) || s[i] == ' '
  }

  predicate DoubleSpaceAt(s: string, i: int) {
    0 <= i && i + 1 < |s| && s[i] == ' ' && s[i + 1] == ' '
  }

  predicate NoDoubleSpace(s: string) {
    forall i | 0 <= i < |s| :: !DoubleSpaceAt(s, i)
  }

  predicate Canonical(s: string) {
    && OnlyWordsAndSpaces(s)
    && NoDoubleSpace(s)
    && (s != [] ==> s[0] != ' ' && s[|s| - 1] != ' ')
  }

  /** normalize_text */
  function Normalize(s: string): (r: string)
    ensures Canonical(r)
  {
    var cleaned := ReplaceNonWord(Lower(s));
    CleanedChars(s);
    CollapseShape(cleaned, false);
    var collapsed := Collapse(cleaned, false);
    StripShape(collapsed);
    Strip(collapsed)
  }

  /** After lower-casing and replacement only `[a-z0-9]` and whitespace remain. */
  predicate Clean(s: string) {
    forall i :: 0 <= i < |s| ==> IsLowerAlnum(s[i]) || IsSpace(s[i])
  }

  lemma CleanedChars(s: string)
    ensures Clean(ReplaceNonWord(Lower(s)))
  {
  }

  lemma {:induction false} CollapseShape(s: string, afterSpace: bool)
    requires Clean(s)
    ensures OnlyWordsAndSpaces(Collapse(s, afterSpace))
    ensures NoDoubleSpace(Collapse(s, afterSpace))
    ensures afterSpace ==> Collapse(s, afterSpace) == [] || Collapse(s, afterSpace)[0] != ' '
  {
    if s != [] {
      var r := Collapse(s, afterSpace);
      var rest := Collapse(s[1..], IsSpace(s[0]));
      CollapseShape(s[1..], IsSpace(s[0]));
      var head := if IsSpace(s[0]) then (if afterSpace then [] else [' ']) else [s[0]];
      assert r == head + rest;
      forall i | 0 <= i < |r| ensures !DoubleSpaceAt(r, i) {
        if i >= |head| {
          assert !DoubleSpaceAt(rest, i - |head|);
        }
      }
    }
  }

  lemma StripShape(s: string)
    requires OnlyWordsAndSpaces(s) && NoDoubleSpace(s)
    ensures Canonical(Strip(s))
  {
    StripLeftShape(s);
    StripRightShape(StripLeft(s));
  }

  /** Trimming the front keeps the shape and leaves no leading space. */
  lemma StripLeftShape(s: string)
    requires OnlyWordsAndSpaces(s) && NoDoubleSpace(s)
    ensures OnlyWordsAndSpaces(StripLeft(s)) && NoDoubleSpace(StripLeft(s))
    ensures StripLeft(s) == [] || StripLeft(s)[0] != ' '
  {
    var left := StripLeft(s);
    StripLeftSuffix(s);
    var k := |s| - |left|;
    forall i | 0 <= i < |left| ensures left[i] == s[k + i] {
    }
    forall i | 0 <= i < |left| ensures IsLowerAlnum(left[i]) || left[i] == ' ' {
      assert left[i] == s[k + i];
    }
    forall i | 0 <= i < |left| ensures !DoubleSpaceAt(left, i) {
      assert !DoubleSpaceAt(s, k + i);
    }
  }

  /** Trimming the back keeps the shape and the front, and leaves no trailing space. */
  lemma StripRightShape(s: string)
    requires OnlyWordsAndSpaces(s) && NoDoubleSpace(s)
    requires s == [] || s[0] != ' '
    ensures Canonical(StripRight(s))
  {
    var r := StripRight(s);
    StripRightPrefix(s);
    forall i | 0 <= i < |r| ensures r[i] == s[i] {
    }
    forall i | 0 <= i < |r| ensures IsLowerAlnum(r[i]) || r[i] == ' ' {
      assert r[i] == s[i];
    }
    forall i | 0 <= i < |r| ensures !DoubleSpaceAt(r, i) {
      assert !DoubleSpaceAt(s, i);
    }
  }

  // ---------------------------------------------------------------------------
  // Collapse, read run by run

  /**
   * Reference reading of `re.sub(r"\s+", " ", text)`: a maximal whitespace
   * run (its first character and everything `StripLeft` drops after it) is
   * replaced by exactly one space; other characters are copied.
   */
  function SquashRuns(s: string): string
    decreases |s|
  {
    if s == [] then []
    else if IsSpace(s[0]) then [' '] + SquashRuns(StripLeft(s[1..]))
    else [s[0]] + SquashRuns(s[1..])
  }

  /** After a whitespace character, Collapse drops the rest of the run. */
  lemma {:induction false} AfterSpaceSkipsRun(s: string)
    ensures Collapse(s, true) == Collapse(StripLeft(s), false)
    decreases |s|
  {
    if s != [] && IsSpace(s[0]) {
      AfterSpaceSkipsRun(s[1..]);
    }
  }

  /** The scanning Collapse agrees with the run-by-run reading. */
  lemma {:induction false} CollapseSquashesRuns(s: string)
    ensures Collapse(s, false) == SquashRuns(s)
    decreases |s|
  {
    if s != [] {
      if IsSpace(s[0]) {
        AfterSpaceSkipsRun(s[1..]);
        CollapseSquashesRuns(StripLeft(s[1..]));
      } else {
        CollapseSquashesRuns(s[1..]);
      }
    }
  }

  // ---------------------------------------------------------------------------
  // Idempotence: normalization leaves a canonical string unchanged

  lemma {:induction false} CollapseKeepsCanonical(s: string, afterSpace: bool)
    requires OnlyWordsAndSpaces(s) && NoDoubleSpace(s)
    requires afterSpace ==> s == [] || s[0] != ' '
    ensures Collapse(s, afterSpace) == s
  {
    if s != [] {
      var tail := s[1..];
      forall i | 0 <= i < |tail| ensures !DoubleSpaceAt(tail, i) {
        assert !DoubleSpaceAt(s, i + 1);
      }
      assert !DoubleSpaceAt(s, 0);
      CollapseKeepsCanonical(tail, s[0] == ' ');
      assert s == [s[0]] + tail;
    }
  }

  lemma LowerFixesCanonical(s: string)
    requires OnlyWordsAndSpaces(s)
    ensures Lower(s) == s
  {
    assert forall i | 0 <= i < |s| :: Lower(s)[i] == s[i];
  }

  lemma ReplaceFixesCanonical(s: string)
    requires OnlyWordsAndSpaces(s)
    ensures ReplaceNonWord(s) == s
  {
    assert forall i | 0 <= i < |s| :: ReplaceNonWord(s)[i] == s[i];
  }

  lemma NormalizeFixesCanonical(s: string)
    requires Canonical(s)
    ensures Normalize(s) == s
  {
    LowerFixesCanonical(s);
    ReplaceFixesCanonical(s);
    CollapseKeepsCanonical(s, false);
    assert s == [] || !IsSpace(s[0]);
    assert StripLeft(s) == s;
    assert s == [] || !IsSpace(s[|s| - 1]);
    assert StripRight(s) == s;
  }

  /** normalize_text is idempotent. */
  lemma NormalizeIdempotent(s: string)
    ensures Normalize(Normalize(s)) == Normalize(s)
  {
    NormalizeFixesCanonical(Normalize(s));
  }

  // ---------------------------------------------------------------------------
  // Content: normalization keeps exactly the letters and digits, in order

  /** The letters and digits of `s`, lower-cased, in order. */
  function AlnumContent(s: string): string {
    if s == [] then []
    else (if IsAlnum(s[0]) then [LowerChar(s[0])] else []) + AlnumContent(s[1..])
  }

  lemma {:induction false} AlnumContentAppend(a: string, b: string)
    ensures AlnumContent(a + b) == AlnumContent(a) + AlnumContent(b)
  {
    if a != [] {
      var head := if IsAlnum(a[0]) then [LowerChar(a[0])] else [];
      assert (a + b)[0] == a[0];
      assert (a + b)[1..] == a[1..] + b;
      AlnumContentAppend(a[1..], b);
      calc {
        AlnumContent(a + b);
        head + AlnumContent(a[1..] + b);
        head + (AlnumContent(a[1..]) + AlnumContent(b));
        (head + AlnumContent(a[1..])) + AlnumContent(b);
      }
    } else {
      assert a + b == b;
    }
  }

  lemma {:induction false} AlnumContentOfSpaces(s: string)
    requires forall i :: 0 <= i < |s| ==> IsSpace(s[i])
    ensures AlnumContent(s) == []
  {
    if s != [] {
      AlnumContentOfSpaces(s[1..]);
    }
  }

  lemma {:induction false} CleaningKeepsContent(s: string)
    ensures AlnumContent(ReplaceNonWord(Lower(s))) == AlnumContent(s)
  {
    if s != [] {
      var t := ReplaceNonWord(Lower(s));
      assert t[1..] == ReplaceNonWord(Lower(s[1..]));
      CleaningKeepsContent(s[1..]);
    }
  }

  lemma {:induction false} CollapseKeepsContent(s: string, afterSpace: bool)
    ensures AlnumContent(Collapse(s, afterSpace)) == AlnumContent(s)
    decreases |s|
  {
    if s != [] {
      var rest := if IsSpace(s[0]) then Collapse(s[1..], true) else Collapse(s[1..], false);
      var head := if IsSpace(s[0]) then (if afterSpace then [] else [' ']) else [s[0]];
      assert Collapse(s, afterSpace) == head + rest;
      AlnumContentAppend(head, rest);
      CollapseKeepsContent(s[1..], IsSpace(s[0]));
    }
  }

  lemma StripKeepsContent(s: string)
    ensures AlnumContent(Strip(s)) == AlnumContent(s)
  {
    StripLeftKeepsContent(s);
    StripRightKeepsContent(StripLeft(s));
  }

  lemma StripLeftKeepsContent(s: string)
    ensures AlnumContent(StripLeft(s)) == AlnumContent(s)
  {
    var left := StripLeft(s);
    var k := |s| - |left|;
    StripLeftSuffix(s);
    assert s == s[..k] + left;
    AlnumContentAppend(s[..k], left);
    AlnumContentOfSpaces(s[..k]);
  }

  lemma StripRightKeepsContent(s: string)
    ensures AlnumContent(StripRight(s)) == AlnumContent(s)
  {
    var r := StripRight(s);
    StripRightPrefix(s);
    assert s == r + s[|r|..];
    AlnumContentAppend(r, s[|r|..]);
    AlnumContentOfSpaces(s[|r|..]);
  }

  /** Normalization neither loses nor invents a letter or digit. */
  lemma NormalizeKeepsContent(s: string)
    ensures AlnumContent(Normalize(s)) == AlnumContent(s)
  {
    var cleaned := ReplaceNonWord(Lower(s));
    CleaningKeepsContent(s);
    CollapseKeepsContent(cleaned, false);
    StripKeepsContent(Collapse(cleaned, false));
  }

  // ---------------------------------------------------------------------------
  // Words: normalization keeps the words apart, one space between two words

  /** The word read so far, if any, as a one-element list. */
  function Flush(cur: string): seq<string> {
    if cur == [] then [] else [cur]
  }

  /**
   * The maximal runs of letters and digits of `s`, lower-cased, in order,
   * with `cur` the part of the first run read before `s`.
   */
  function WordsFrom(s: string, cur: string): seq<string>
    decreases |s|
  {
    if s == [] then Flush(cur)
    else if IsAlnum(s[0]) then WordsFrom(s[1..], cur + [LowerChar(s[0])])
    else Flush(cur) + WordsFrom(s[1..], [])
  }

  /** The words of `s`: its maximal runs of letters and digits, lower-cased, in order. */
  function Words(s: string): seq<string> {
    WordsFrom(s, [])
  }

  /** The words separated by single spaces. */
  function JoinWords(ws: seq<string>): string
    decreases |ws|
  {
    if ws == [] then ""
    else if |ws| == 1 then ws[0]
    else ws[0] + " " + JoinWords(ws[1..])
  }

  lemma WhitespaceIsNoWordChar(c: char)
    requires IsSpace(c)
    ensures !IsAlnum(c)
  {
  }

  /** Two strings that agree on which characters are letters or digits, and on those, have the same words. */
  lemma {:induction false} WordsFromAgree(s: string, t: string, cur: string)
    requires |s| == |t|
    requires forall i :: 0 <= i < |s| ==> IsAlnum(s[i]) == IsAlnum(t[i])
    requires forall i :: 0 <= i < |s| && IsAlnum(s[i]) ==> LowerChar(s[i]) == LowerChar(t[i])
    ensures WordsFrom(s, cur) == WordsFrom(t, cur)
    decreases |s|
  {
    if s != [] {
      var s', t' := s[1..], t[1..];
      forall i | 0 <= i < |s'| ensures IsAlnum(s'[i]) == IsAlnum(t'[i]) {
        assert s'[i] == s[i + 1] && t'[i] == t[i + 1];
      }
      forall i | 0 <= i < |s'| && IsAlnum(s'[i]) ensures LowerChar(s'[i]) == LowerChar(t'[i]) {
        assert s'[i] == s[i + 1] && t'[i] == t[i + 1];
      }
      if IsAlnum(s[0]) {
        WordsFromAgree(s', t', cur + [LowerChar(s[0])]);
      } else {
        WordsFromAgree(s', t', []);
      }
    }
  }

  /** Lower-casing and blanking out punctuation keep the words. */
  lemma CleaningKeepsWords(s: string)
    ensures Words(ReplaceNonWord(Lower(s))) == Words(s)
  {
    var c := ReplaceNonWord(Lower(s));
    forall i | 0 <= i < |s| ensures IsAlnum(s[i]) == IsAlnum(c[i]) {
      assert c[i] == if IsLowerAlnum(LowerChar(s[i])) || IsSpace(LowerChar(s[i])) then LowerChar(s[i]) else ' ';
    }
    forall i | 0 <= i < |s| && IsAlnum(s[i]) ensures LowerChar(s[i]) == LowerChar(c[i]) {
      assert c[i] == LowerChar(s[i]);
    }
    WordsFromAgree(c, s, []);
  }

  /** Collapsing whitespace runs keeps the words; `afterSpace` means no word is in progress. */
  lemma {:induction false} CollapseKeepsWords(c: string, afterSpace: bool, cur: string)
    requires afterSpace ==> cur == []
    ensures WordsFrom(Collapse(c, afterSpace), cur) == WordsFrom(c, cur)
    decreases |c|
  {
    if c != [] {
      var rest := c[1..];
      if IsSpace(c[0]) {
        WhitespaceIsNoWordChar(c[0]);
        CollapseKeepsWords(rest, true, []);
        var tail := WordsFrom(rest, []);
        assert WordsFrom(c, cur) == Flush(cur) + tail;
        if afterSpace {
          assert Collapse(c, afterSpace) == [] + Collapse(rest, true) == Collapse(rest, true);
          assert Flush(cur) + tail == tail;
        } else {
          var out := [' '] + Collapse(rest, true);
          assert Collapse(c, afterSpace) == out;
          assert out[0] == ' ' && out[1..] == Collapse(rest, true);
          WhitespaceIsNoWordChar(' ');
          assert WordsFrom(out, cur) == Flush(cur) + WordsFrom(Collapse(rest, true), []);
        }
      } else {
        var out := [c[0]] + Collapse(rest, false);
        assert out[0] == c[0] && out[1..] == Collapse(rest, false);
        if IsAlnum(c[0]) {
          CollapseKeepsWords(rest, false, cur + [LowerChar(c[0])]);
        } else {
          CollapseKeepsWords(rest, false, []);
        }
      }
    }
  }

  lemma {:induction false} StripLeftKeepsWords(s: string)
    ensures Words(StripLeft(s)) == Words(s)
    decreases |s|
  {
    if s != [] && IsSpace(s[0]) {
      WhitespaceIsNoWordChar(s[0]);
      StripLeftKeepsWords(s[1..]);
    }
  }

  /** A trailing whitespace character adds no word. */
  lemma {:induction false} TrailingSpaceKeepsWords(s: string, sp: char, cur: string)
    requires IsSpace(sp)
    ensures WordsFrom(s + [sp], cur) == WordsFrom(s, cur)
    decreases |s|
  {
    WhitespaceIsNoWordChar(sp);
    if s == [] {
      assert [sp][1..] == [];
    } else {
      assert (s + [sp])[0] == s[0] && (s + [sp])[1..] == s[1..] + [sp];
      if IsAlnum(s[0]) {
        TrailingSpaceKeepsWords(s[1..], sp, cur + [LowerChar(s[0])]);
      } else {
        TrailingSpaceKeepsWords(s[1..], sp, []);
      }
    }
  }

  lemma {:induction false} StripRightKeepsWords(s: string)
    ensures Words(StripRight(s)) == Words(s)
    decreases |s|
  {
    if s != [] && IsSpace(s[|s| - 1]) {
      var init := s[..|s| - 1];
      StripRightKeepsWords(init);
      assert init + [s[|s| - 1]] == s;
      TrailingSpaceKeepsWords(init, s[|s| - 1], []);
    }
  }

  /** Normalization keeps the words. */
  lemma NormalizeKeepsWords(s: string)
    ensures Words(Normalize(s)) == Words(s)
  {
    var cleaned := ReplaceNonWord(Lower(s));
    CleaningKeepsWords(s);
    CollapseKeepsWords(cleaned, false, []);
    var collapsed := Collapse(cleaned, false);
    StripLeftKeepsWords(collapsed);
    StripRightKeepsWords(StripLeft(collapsed));
  }

  lemma JoinWordsCons(w: string, ws: seq<string>)
    requires ws != []
    ensures JoinWords([w] + ws) == w + " " + JoinWords(ws)
  {
    assert ([w] + ws)[1..] == ws;
  }

  lemma TailKeepsShape(r: string)
    requires r != [] && OnlyWordsAndSpaces(r) && NoDoubleSpace(r)
    ensures OnlyWordsAndSpaces(r[1..]) && NoDoubleSpace(r[1..])
    ensures r[0] == ' ' && |r| > 1 ==> r[1] != ' '
  {
    var rest := r[1..];
    forall i | 0 <= i < |rest| ensures IsLowerAlnum(rest[i]) || rest[i] == ' ' {
      assert rest[i] == r[i + 1];
    }
    forall i | 0 <= i < |rest| ensures !DoubleSpaceAt(rest, i) {
      assert !DoubleSpaceAt(r, i + 1);
    }
    assert !DoubleSpaceAt(r, 0);
  }

  /** The step of CanonicalTailIsJoinedWords at a space: the word in progress ends there. */
  lemma SpaceEndsWord(r: string, cur: string)
    requires r != [] && r[0] == ' ' && cur != []
    requires r[1..] != [] && JoinWords(WordsFrom(r[1..], [])) == r[1..]
    ensures JoinWords(WordsFrom(r, cur)) == cur + r
  {
    var rest := r[1..];
    var ws := WordsFrom(rest, []);
    WhitespaceIsNoWordChar(' ');
    assert WordsFrom(r, cur) == [cur] + ws;
    assert ws != [];
    calc {
      JoinWords([cur] + ws);
      { JoinWordsCons(cur, ws); }
      cur + " " + rest;
      { assert [r[0]] + rest == r; }
      cur + r;
    }
  }

  /** The step of CanonicalTailIsJoinedWords at a letter or digit: the word in progress grows. */
  lemma LowerAlnumStep(r: string, cur: string)
    requires r != [] && IsLowerAlnum(r[0])
    ensures WordsFrom(r, cur) == WordsFrom(r[1..], cur + [r[0]])
  {
    assert LowerChar(r[0]) == r[0];
  }

  lemma CharExtendsWord(r: string, cur: string)
    requires r != [] && IsLowerAlnum(r[0])
    requires JoinWords(WordsFrom(r[1..], cur + [r[0]])) == cur + [r[0]] + r[1..]
    ensures JoinWords(WordsFrom(r, cur)) == cur + r
  {
    LowerAlnumStep(r, cur);
    HeadTailRejoin(r, cur);
  }

  lemma HeadTailRejoin(r: string, cur: string)
    requires r != []
    ensures cur + [r[0]] + r[1..] == cur + r
  {
    assert [r[0]] + r[1..] == r;
  }

  /**
   * A canonical tail `r`, read after the word `cur` in progress, is the rest
   * of that word and the following words, one space apart.
   */
  lemma {:induction false} CanonicalTailIsJoinedWords(r: string, cur: string)
    requires OnlyWordsAndSpaces(r) && NoDoubleSpace(r)
    requires r != [] ==> r[|r| - 1] != ' '
    requires cur == [] ==> r == [] || r[0] != ' '
    requires forall i :: 0 <= i < |cur| ==> IsLowerAlnum(cur[i])
    ensures JoinWords(WordsFrom(r, cur)) == cur + r
    decreases |r|
  {
    if r == [] {
      assert cur + r == cur;
    } else {
      TailKeepsShape(r);
      if r[0] == ' ' {
        CanonicalTailIsJoinedWords(r[1..], []);
        assert [] + r[1..] == r[1..];
        SpaceEndsWord(r, cur);
      } else {
        var next := cur + [r[0]];
        assert forall i :: 0 <= i < |next| ==> IsLowerAlnum(next[i]);
        CanonicalTailIsJoinedWords(r[1..], next);
        CharExtendsWord(r, cur);
      }
    }
  }

  /** A canonical string is its words, one space apart. */
  lemma CanonicalIsJoinedWords(r: string)
    requires Canonical(r)
    ensures JoinWords(Words(r)) == r
  {
    CanonicalTailIsJoinedWords(r, []);
    assert [] + r == r;
  }

  /**
   * normalize_text gives the words of the input (its maximal runs of
   * letters and digits, lower-cased), in order, separated by single spaces.
   */
  lemma NormalizeIsJoinedWords(s: string)
    ensures Normalize(s) == JoinWords(Words(s))
  {
    NormalizeKeepsWords(s);
    CanonicalIsJoinedWords(Normalize(s));
  }

  /**
   * normalize_text gives "" exactly when the input has no letter or digit:
   * the empty, whitespace-only and punctuation-only inputs.
   */
  lemma NormalizeEmptyIff(s: string)
    ensures Normalize(s) == [] <==> AlnumContent(s) == []
  {
    NormalizeKeepsContent(s);
    var r := Normalize(s);
    if r != [] {
      assert IsAlnum(r[0]);
      assert AlnumContent(r) == [LowerChar(r[0])] + AlnumContent(r[1..]);
    }
  }

  // ---------------------------------------------------------------------------
  // segment_policy

  predicate IsTerminal(c: char) {
    c == '.' || c == '!' || c == '?'
  }

  /** A match of `[.!?]\s+` starts at position `i` of `t`. */
  predicate BreakAt(t: string, i: int) {
    0 <= i && i + 1 < |t| && IsTerminal(t[i]) && IsSpace(t[i + 1])
  }

  predicate HasBreak(t: string) {
    exists i | 0 <= i < |t| :: BreakAt(t, i)
  }

  /**
   * `re.split(r"[.!?]\s+", t)` with `cur` the piece read so far: the
   * leftmost match ends a piece, and its greedy `\s+` swallows the whole
   * whitespace run after the punctuation mark.
   */
  function SplitFrom(t: string, cur: string): (parts: seq<string>)
    ensures |parts| >= 1
    decreases |t|
  {
    if BreakAt(t, 0) then [cur] + SplitFrom(StripLeft(t[1..]), "")
    else if t == [] then [cur]
    else SplitFrom(t[1..], cur + [t[0]])
  }

  function SplitSentences(t: string): seq<string> {
    SplitFrom(t, "")
  }

  lemma {:induction false} SplitFromNoBreak(t: string, cur: string)
    requires !HasBreak(t)
    ensures SplitFrom(t, cur) == [cur + t]
    decreases |t|
  {
    if t != [] {
      assert !BreakAt(t, 0);
      forall i | 0 <= i < |t| - 1 ensures !BreakAt(t[1..], i) {
        assert !BreakAt(t, i + 1);
      }
      SplitFromNoBreak(t[1..], cur + [t[0]]);
      assert cur + [t[0]] + t[1..] == cur + t;
    } else {
      assert cur + t == cur;
    }
  }

  lemma {:induction false} SplitFromBreak(t: string, cur: string)
    requires HasBreak(t)
    ensures |SplitFrom(t, cur)| >= 2
    decreases |t|
  {
    if !BreakAt(t, 0) {
      var i :| 0 <= i < |t| && BreakAt(t, i);
      assert i != 0;
      assert t[1..][i - 1] == t[i] && t[1..][i] == t[i + 1];
      assert BreakAt(t[1..], i - 1);
      SplitFromBreak(t[1..], cur + [t[0]]);
    }
  }

  /** A text with no sentence break is one piece, and only such a text is. */
  lemma SplitOnePieceIff(t: string)
    ensures SplitSentences(t) == [t] <==> !HasBreak(t)
    ensures |SplitSentences(t)| == 1 <==> !HasBreak(t)
  {
    if HasBreak(t) {
      SplitFromBreak(t, "");
    } else {
      SplitFromNoBreak(t, "");
      assert "" + t == t;
    }
  }

  lemma {:induction false} SplitFromPiecesHaveNoBreak(t: string, cur: string)
    requires !HasBreak(cur)
    requires cur != [] && IsTerminal(cur[|cur| - 1]) ==> t == [] || !IsSpace(t[0])
    ensures forall k :: 0 <= k < |SplitFrom(t, cur)| ==> !HasBreak(SplitFrom(t, cur)[k])
    decreases |t|
  {
    if BreakAt(t, 0) {
      assert !HasBreak("");
      SplitFromPiecesHaveNoBreak(StripLeft(t[1..]), "");
    } else if t != [] {
      var next := cur + [t[0]];
      forall i ensures !BreakAt(next, i) {
        if BreakAt(next, i) {
          if i + 1 < |cur| {
            assert BreakAt(cur, i);
          }
        }
      }
      SplitFromPiecesHaveNoBreak(t[1..], next);
    }
  }

  /** No piece of the split contains a sentence break. */
  lemma SplitPiecesHaveNoBreak(t: string)
    ensures forall k :: 0 <= k < |SplitSentences(t)| ==> !HasBreak(SplitSentences(t)[k])
  {
    assert !HasBreak("");
    SplitFromPiecesHaveNoBreak(t, "");
  }

  // The split loses nothing: the text is its pieces joined by the separators
  // the split removed.

  /** A match of `[.!?]\s+`: a terminal mark followed by at least one whitespace character. */
  predicate IsSeparator(sep: string) {
    |sep| >= 2 && IsTerminal(sep[0]) && forall i :: 1 <= i < |sep| ==> IsSpace(sep[i])
  }

  /** The whitespace run at the front of `t`. */
  function LeadingSpaces(t: string): string {
    if t != [] && IsSpace(t[0]) then [t[0]] + LeadingSpaces(t[1..]) else []
  }

  /** The separators `re.split(r"[.!?]\s+", t)` removes, in order. */
  ghost function SeparatorsFrom(t: string): seq<string>
    decreases |t|
  {
    if BreakAt(t, 0) then [[t[0]] + LeadingSpaces(t[1..])] + SeparatorsFrom(StripLeft(t[1..]))
    else if t == [] then []
    else SeparatorsFrom(t[1..])
  }

  ghost function Separators(t: string): seq<string> {
    SeparatorsFrom(t)
  }

  /** `parts[0] + seps[0] + parts[1] + ... + parts[n - 1]`. */
  function Join(parts: seq<string>, seps: seq<string>): string
    requires |parts| == |seps| + 1
    decreases |seps|
  {
    if seps == [] then parts[0] else parts[0] + seps[0] + Join(parts[1..], seps[1..])
  }

  /** StripLeft drops exactly the whitespace run at the front. */
  lemma {:induction false} LeadingSpacesShape(t: string)
    ensures LeadingSpaces(t) + StripLeft(t) == t
    ensures forall i :: 0 <= i < |LeadingSpaces(t)| ==> IsSpace(LeadingSpaces(t)[i])
    ensures StripLeft(t) == [] || !IsSpace(StripLeft(t)[0])
    decreases |t|
  {
    if t != [] && IsSpace(t[0]) {
      var u := t[1..];
      LeadingSpacesShape(u);
      var lead := LeadingSpaces(u);
      assert [t[0]] + lead + StripLeft(u) == [t[0]] + (lead + StripLeft(u));
      assert [t[0]] + u == t;
      forall i | 0 <= i < 1 + |lead| ensures IsSpace(([t[0]] + lead)[i]) {
        if i > 0 {
          assert ([t[0]] + lead)[i] == lead[i - 1];
        }
      }
    }
  }

  /** The first piece continues `cur` with the front of `t`. */
  lemma {:induction false} SplitFromFirstPiece(t: string, cur: string)
    ensures |SplitFrom(t, cur)[0]| >= |cur| && SplitFrom(t, cur)[0][..|cur|] == cur
    ensures |SplitFrom(t, cur)[0]| > |cur| ==> t != [] && SplitFrom(t, cur)[0][|cur|] == t[0]
    decreases |t|
  {
    if !BreakAt(t, 0) && t != [] {
      SplitFromFirstPiece(t[1..], cur + [t[0]]);
      var first := SplitFrom(t[1..], cur + [t[0]])[0];
      assert first[..|cur|] == first[..|cur| + 1][..|cur|];
    }
  }

  lemma JoinCons(cur: string, sep: string, rest: seq<string>, seps: seq<string>)
    requires |rest| == |seps| + 1
    ensures Join([cur] + rest, [sep] + seps) == cur + sep + Join(rest, seps)
  {
    assert ([cur] + rest)[1..] == rest;
    assert ([sep] + seps)[1..] == seps;
  }

  /** A break at the front of `t`: the mark, the whitespace run, and what follows make up `t`. */
  lemma BreakSplitsText(t: string)
    requires BreakAt(t, 0)
    ensures [t[0]] + LeadingSpaces(t[1..]) + StripLeft(t[1..]) == t
  {
    var s := t[1..];
    var lead, r := LeadingSpaces(s), StripLeft(s);
    LeadingSpacesShape(s);
    assert [t[0]] + lead + r == [t[0]] + (lead + r);
    assert [t[0]] + s == t;
  }

  /** One separator between each two consecutive pieces. */
  lemma {:induction false} SeparatorCount(t: string, cur: string)
    ensures |SeparatorsFrom(t)| + 1 == |SplitFrom(t, cur)|
    decreases |t|
  {
    if BreakAt(t, 0) {
      SeparatorCount(StripLeft(t[1..]), "");
    } else if t != [] {
      SeparatorCount(t[1..], cur + [t[0]]);
    }
  }

  lemma {:induction false} SplitFromJoin(t: string, cur: string)
    ensures |SeparatorsFrom(t)| + 1 == |SplitFrom(t, cur)|
    ensures Join(SplitFrom(t, cur), SeparatorsFrom(t)) == cur + t
    decreases |t|
  {
    SeparatorCount(t, cur);
    if BreakAt(t, 0) {
      SplitFromJoin(StripLeft(t[1..]), "");
      JoinAtBreak(t, cur);
    } else if t != [] {
      SplitFromJoin(t[1..], cur + [t[0]]);
      assert cur + [t[0]] + t[1..] == cur + t;
    }
  }

  /** The step of SplitFromJoin at a break: `cur` ends, and the separator and the rest follow. */
  lemma JoinAtBreak(t: string, cur: string)
    requires BreakAt(t, 0)
    requires |SeparatorsFrom(StripLeft(t[1..]))| + 1 == |SplitFrom(StripLeft(t[1..]), "")|
    requires Join(SplitFrom(StripLeft(t[1..]), ""), SeparatorsFrom(StripLeft(t[1..]))) == "" + StripLeft(t[1..])
    ensures |SeparatorsFrom(t)| + 1 == |SplitFrom(t, cur)|
    ensures Join(SplitFrom(t, cur), SeparatorsFrom(t)) == cur + t
  {
    var u := StripLeft(t[1..]);
    var sep := [t[0]] + LeadingSpaces(t[1..]);
    var rest, seps := SplitFrom(u, ""), SeparatorsFrom(u);
    assert SplitFrom(t, cur) == [cur] + rest;
    assert SeparatorsFrom(t) == [sep] + seps;
    calc {
      Join([cur] + rest, [sep] + seps);
      { JoinCons(cur, sep, rest, seps); }
      cur + sep + Join(rest, seps);
      { assert "" + u == u; }
      cur + sep + u;
      { assert cur + sep + u == cur + (sep + u); BreakSplitsText(t); }
      cur + t;
    }
  }

  predicate AllSeparators(seps: seq<string>) {
    forall k :: 0 <= k < |seps| ==> IsSeparator(seps[k])
  }

  lemma ConsSeparators(sep: string, seps: seq<string>)
    requires IsSeparator(sep) && AllSeparators(seps)
    ensures AllSeparators([sep] + seps)
  {
    forall k | 0 <= k < |seps| + 1 ensures IsSeparator(([sep] + seps)[k]) {
      if k > 0 {
        assert ([sep] + seps)[k] == seps[k - 1];
      }
    }
  }

  /** The separator a break at the front of `t` produces is a match of `[.!?]\s+`. */
  lemma FirstSeparator(t: string)
    requires BreakAt(t, 0)
    ensures IsSeparator([t[0]] + LeadingSpaces(t[1..]))
  {
    var lead := LeadingSpaces(t[1..]);
    var sep := [t[0]] + lead;
    LeadingSpacesShape(t[1..]);
    assert lead != [] by {
      assert StripLeft(t[1..]) == StripLeft(t[2..]);
    }
    forall i | 1 <= i < |sep| ensures IsSpace(sep[i]) {
      assert sep[i] == lead[i - 1];
    }
  }

  lemma {:induction false} SeparatorsAreMatches(t: string)
    ensures AllSeparators(SeparatorsFrom(t))
    decreases |t|
  {
    if BreakAt(t, 0) {
      var u := StripLeft(t[1..]);
      SeparatorsAreMatches(u);
      FirstSeparator(t);
      ConsSeparators([t[0]] + LeadingSpaces(t[1..]), SeparatorsFrom(u));
    } else if t != [] {
      SeparatorsAreMatches(t[1..]);
    }
  }

  /** Every piece after the first is empty or starts with a non-whitespace character. */
  predicate LaterPiecesTrimmed(parts: seq<string>) {
    forall k :: 1 <= k < |parts| ==> parts[k] == [] || !IsSpace(parts[k][0])
  }

  lemma ConsTrimmed(cur: string, rest: seq<string>)
    requires rest != [] && LaterPiecesTrimmed(rest)
    requires rest[0] == [] || !IsSpace(rest[0][0])
    ensures LaterPiecesTrimmed([cur] + rest)
  {
    var parts := [cur] + rest;
    forall k | 1 <= k < |parts| ensures parts[k] == [] || !IsSpace(parts[k][0]) {
      assert parts[k] == rest[k - 1];
    }
  }

  lemma {:induction false} SplitFromLaterPieces(t: string, cur: string)
    ensures LaterPiecesTrimmed(SplitFrom(t, cur))
    decreases |t|
  {
    if BreakAt(t, 0) {
      var u := StripLeft(t[1..]);
      LeadingSpacesShape(t[1..]);
      SplitFromLaterPieces(u, "");
      SplitFromFirstPiece(u, "");
      ConsTrimmed(cur, SplitFrom(u, ""));
    } else if t != [] {
      SplitFromLaterPieces(t[1..], cur + [t[0]]);
    }
  }

  /**
   * The text is the pieces of the split joined by the separators it removed;
   * every separator is a `[.!?]` and a whole whitespace run, since the piece
   * after it never starts with whitespace.
   */
  lemma SplitRoundTrip(t: string)
    ensures |Separators(t)| + 1 == |SplitSentences(t)|
    ensures Join(SplitSentences(t), Separators(t)) == t
    ensures AllSeparators(Separators(t))
    ensures LaterPiecesTrimmed(SplitSentences(t))
  {
    SplitFromJoin(t, "");
    SeparatorsAreMatches(t);
    SplitFromLaterPieces(t, "");
    assert "" + t == t;
  }

  /** `piece` occurs in `t` at position `i`. */
  predicate ExcerptAt(piece: string, t: string, i: int) {
    0 <= i <= |t| - |piece| && t[i..i + |piece|] == piece
  }

  /** `piece` is a contiguous slice of `t`. */
  ghost predicate IsExcerpt(piece: string, t: string) {
    exists i :: ExcerptAt(piece, t, i)
  }

  lemma ExcerptShift(piece: string, prefix: string, rest: string, i: int)
    requires ExcerptAt(piece, rest, i)
    ensures ExcerptAt(piece, prefix + rest, |prefix| + i)
  {
    assert (prefix + rest)[|prefix| + i..|prefix| + i + |piece|] == rest[i..i + |piece|];
  }

  lemma {:induction false} JoinedPiecesAreExcerpts(parts: seq<string>, seps: seq<string>)
    requires |parts| == |seps| + 1
    ensures forall k :: 0 <= k < |parts| ==> IsExcerpt(parts[k], Join(parts, seps))
    decreases |seps|
  {
    var whole := Join(parts, seps);
    if seps == [] {
      assert ExcerptAt(parts[0], whole, 0);
    } else {
      JoinedPiecesAreExcerpts(parts[1..], seps[1..]);
      var prefix := parts[0] + seps[0];
      var rest := Join(parts[1..], seps[1..]);
      assert whole == prefix + rest;
      assert ExcerptAt(parts[0], whole, 0) by {
        assert whole == parts[0] + (seps[0] + rest);
      }
      forall k | 1 <= k < |parts| ensures IsExcerpt(parts[k], whole) {
        assert parts[k] == parts[1..][k - 1];
        assert IsExcerpt(parts[1..][k - 1], rest);
        var i :| ExcerptAt(parts[k], rest, i);
        ExcerptShift(parts[k], prefix, rest, i);
      }
    }
  }

  /** Every piece of the split is a contiguous slice of the text. */
  lemma SplitPiecesAreExcerpts(t: string)
    ensures forall k :: 0 <= k < |SplitSentences(t)| ==> IsExcerpt(SplitSentences(t)[k], t)
  {
    SplitRoundTrip(t);
    JoinedPiecesAreExcerpts(SplitSentences(t), Separators(t));
  }

  datatype Segment = Segment(id: nat, text: string, normalized: string)

  /** The indices of the pieces among the first `n` that are long enough to keep. */
  function KeptIndices(parts: seq<string>, n: nat): seq<nat>
    requires n <= |parts|
  {
    if n == 0 then []
    else if |parts[n - 1]| < MinSegmentLength then KeptIndices(parts, n - 1)
    else KeptIndices(parts, n - 1) + [n - 1]
  }

  /** The segment made of piece `j`: its split index, its text and its normal form. */
  function SegmentOf(parts: seq<string>, j: nat): Segment
    requires j < |parts|
  {
    Segment(j, parts[j], Normalize(parts[j]))
  }

  /** What segment_policy returns for `text`. */
  function Segments(text: string): (segments: seq<Segment>)
    ensures |segments| == |KeptIndices(SplitSentences(text), |SplitSentences(text)|)|
  {
    var parts := SplitSentences(text);
    var kept := KeptIndices(parts, |parts|);
    KeptIndicesSound(parts, |parts|);
    seq(|kept|, k requires 0 <= k < |kept| => SegmentOf(parts, kept[k]))
  }

  /** segment_policy */
  method SegmentPolicy(text: string) returns (segments: seq<Segment>)
    ensures segments == Segments(text)
  {
    var parts := SplitSentences(text);
    segments := [];
    for i := 0 to |parts|
      invariant |segments| == |KeptIndices(parts, i)|
      invariant forall k :: 0 <= k < |segments| ==>
        KeptIndices(parts, i)[k] < |parts| && segments[k] == SegmentOf(parts, KeptIndices(parts, i)[k])
    {
      var seg := parts[i];
      if |seg| >= MinSegmentLength {
        segments := segments + [Segment(i, seg, Normalize(seg))];
      }
    }
    KeptIndicesSound(parts, |parts|);
  }

  lemma {:induction false} KeptIndicesSound(parts: seq<string>, n: nat)
    requires n <= |parts|
    ensures |KeptIndices(parts, n)| <= n
    ensures forall k :: 0 <= k < |KeptIndices(parts, n)| ==>
      KeptIndices(parts, n)[k] < n && |parts[KeptIndices(parts, n)[k]]| >= MinSegmentLength
    ensures forall k, l :: 0 <= k < l < |KeptIndices(parts, n)| ==> KeptIndices(parts, n)[k] < KeptIndices(parts, n)[l]
  {
    if n > 0 {
      KeptIndicesSound(parts, n - 1);
    }
  }

  lemma {:induction false} KeptIndicesComplete(parts: seq<string>, n: nat)
    requires n <= |parts|
    ensures forall j :: 0 <= j < n && |parts[j]| >= MinSegmentLength ==> j in KeptIndices(parts, n)
  {
    if n > 0 {
      KeptIndicesComplete(parts, n - 1);
    }
  }

  /**
   * segment_policy keeps exactly the pieces of the split of length at least
   * MinSegmentLength, each under its own split index (dropped indices are
   * not reused), in increasing index order, with its normal form.
   */
  lemma SegmentsAreLongPieces(text: string)
    ensures forall k :: 0 <= k < |Segments(text)| ==>
      && Segments(text)[k].id < |SplitSentences(text)|
      && Segments(text)[k].text == SplitSentences(text)[Segments(text)[k].id]
      && |Segments(text)[k].text| >= MinSegmentLength
      && Segments(text)[k].normalized == Normalize(Segments(text)[k].text)
    ensures forall k, l :: 0 <= k < l < |Segments(text)| ==> Segments(text)[k].id < Segments(text)[l].id
    ensures forall i :: 0 <= i < |SplitSentences(text)| && |SplitSentences(text)[i]| >= MinSegmentLength ==>
      exists k :: 0 <= k < |Segments(text)| && Segments(text)[k].id == i
    ensures |Segments(text)| <= |SplitSentences(text)|
  {
    var parts := SplitSentences(text);
    var segs := Segments(text);
    KeptIndicesSound(parts, |parts|);
    assert forall k :: 0 <= k < |segs| ==> segs[k] == SegmentOf(parts, KeptIndices(parts, |parts|)[k]);
    KeptSegments(parts, segs);
  }

  /** Every segment's text is an excerpt of the document, copied unchanged. */
  lemma SegmentTextsAreExcerpts(text: string)
    ensures forall k :: 0 <= k < |Segments(text)| ==> IsExcerpt(Segments(text)[k].text, text)
  {
    SegmentsAreLongPieces(text);
    SplitPiecesAreExcerpts(text);
  }

  /** The facts of SegmentsAreLongPieces, for any split `parts` and its kept segments `segs`. */
  lemma KeptSegments(parts: seq<string>, segs: seq<Segment>)
    requires |segs| == |KeptIndices(parts, |parts|)|
    requires forall k :: 0 <= k < |segs| ==>
      KeptIndices(parts, |parts|)[k] < |parts| && segs[k] == SegmentOf(parts, KeptIndices(parts, |parts|)[k])
    ensures forall k :: 0 <= k < |segs| ==>
      && segs[k].id < |parts|
      && segs[k].text == parts[segs[k].id]
      && |segs[k].text| >= MinSegmentLength
      && segs[k].normalized == Normalize(segs[k].text)
    ensures forall k, l :: 0 <= k < l < |segs| ==> segs[k].id < segs[l].id
    ensures forall i :: 0 <= i < |parts| && |parts[i]| >= MinSegmentLength ==>
      exists k :: 0 <= k < |segs| && segs[k].id == i
    ensures |segs| <= |parts|
  {
    var kept := KeptIndices(parts, |parts|);
    KeptIndicesSound(parts, |parts|);
    KeptIndicesComplete(parts, |parts|);
    forall i | 0 <= i < |parts| && |parts[i]| >= MinSegmentLength
      ensures exists k :: 0 <= k < |segs| && segs[k].id == i
    {
      var k :| 0 <= k < |kept| && kept[k] == i;
      assert segs[k].id == i;
    }
  }

  /** No segment at all exactly when every piece is too short. */
  lemma SegmentsEmptyIff(text: string)
    ensures Segments(text) == [] <==>
      forall i :: 0 <= i < |SplitSentences(text)| ==> |SplitSentences(text)[i]| < MinSegmentLength
  {
    var parts := SplitSentences(text);
    SegmentsAreLongPieces(text);
    if Segments(text) != [] {
      assert |parts[Segments(text)[0].id]| >= MinSegmentLength;
    }
  }

  /** A text without a sentence break gives at most one segment, with id 0 and the whole text. */
  lemma SegmentsWithoutBreak(text: string)
    requires !HasBreak(text)
    ensures |Segments(text)| <= 1
    ensures forall k :: 0 <= k < |Segments(text)| ==> Segments(text)[k].id == 0 && Segments(text)[k].text == text
  {
    SplitOnePieceIff(text);
    SegmentsAreLongPieces(text);
  }

  /**
   * A whitespace-only text of at least MinSegmentLength characters is kept
   * as one segment whose normal form is empty: the length filter looks at
   * the raw piece.
   */
  lemma LongBlankTextIsOneSegment(text: string)
    requires |text| >= MinSegmentLength
    requires forall i :: 0 <= i < |text| ==> IsSpace(text[i])
    ensures |Segments(text)| == 1
    ensures Segments(text)[0] == Segment(0, text, "")
  {
    assert !HasBreak(text);
    SplitOnePieceIff(text);
    AlnumContentOfSpaces(text);
    NormalizeEmptyIff(text);
    assert KeptIndices([text], 1) == [0];
  }
}
