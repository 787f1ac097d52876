/**
 * The string operations the scripts rely on, as Python defines them for
 * ASCII text: str.lower, str.strip, str.split() with no separator,
 * " ".join, int() on a decimal literal, and the code-point order SQLite and
 * pandas use to sort strings.
 */
module Text {
  import opened Wrappers

  /** Python's whitespace among ASCII characters: space, \t \n \v \f \r and
      the four separators 0x1C-0x1F. */
  predicate IsSpace(c: char) {
    c == ' ' || ('\t' <= c <= '\r') || (0x1C <= c as int <= 0x1F)
  }

  function LowerChar(c: char): char {
    if 'A' <= c <= 'Z' then (c as int + 32) as char else c
  }

  function Lower(s: string): (r: string)
    ensures |r| == |s|
    ensures forall i :: 0 <= i < |s| ==> r[i] == LowerChar(s[i])
  {
    seq(|s|, i requires 0 <= i < |s| => LowerChar(s[i]))
  }

  predicate IsLower(s: string) {
    forall i :: 0 <= i < |s| ==> !('A' <= s[i] <= 'Z')
  }

  lemma LowerIsLower(s: string)
    ensures IsLower(Lower(s))
  {
  }

  /** Nothing but whitespace (the empty text included). */
  predicate AllSpace(s: string) {
    forall k :: 0 <= k < |s| ==> IsSpace(s[k])
  }

  function TrimStart(s: string): (r: string)
    ensures |r| <= |s| && r == s[|s| - |r|..]
    ensures AllSpace(s[..|s| - |r|])
    ensures r != [] ==> !IsSpace(r[0])
    decreases |s|
  {
    if s != [] && IsSpace(s[0]) then
      var r := TrimStart(s[1..]);
      assert s[..|s| - |r|] == [s[0]] + s[1..][..|s[1..]| - |r|];
      r
    else s
  }

  function TrimEnd(s: string): (r: string)
    ensures |r| <= |s| && r == s[..|r|]
    ensures AllSpace(s[|r|..])
    ensures r != [] ==> !IsSpace(r[|r| - 1])
    decreases |s|
  {
    if s != [] && IsSpace(s[|s| - 1]) then
      var r := TrimEnd(s[..|s| - 1]);
      assert s[|r|..] == s[..|s| - 1][|r|..] + [s[|s| - 1]];
      r
    else s
  }

  /** `r` is what is left of `s` once a whitespace prefix of length `i` and a
      whitespace suffix are cut off. */
  predicate CutAt(s: string, r: string, i: int) {
    0 <= i && i + |r| <= |s| && s[i..i + |r|] == r && AllSpace(s[..i]) && AllSpace(s[i + |r|..])
  }

  /** `r` is `s` with its whitespace ends cut off, and no more: `r` neither
      starts nor ends with whitespace. */
  predicate IsStripOf(s: string, r: string) {
    && (r != [] ==> !IsSpace(r[0]) && !IsSpace(r[|r| - 1]))
    && exists i :: 0 <= i <= |s| && CutAt(s, r, i)
  }

  /** str.strip(): the text without leading and trailing whitespace. */
  function Strip(s: string): (r: string)
    ensures IsStripOf(s, r)
  {
    var t := TrimStart(s);
    var r := TrimEnd(t);
    var i := |s| - |t|;
    assert s[i..i + |r|] == r && s[i + |r|..] == t[|r|..];
    assert CutAt(s, r, i);
    r
  }

  /** A cut that leaves nothing shows that the text is all whitespace. */
  lemma EmptyCut(s: string, r: string, i: int)
    requires CutAt(s, r, i)
    ensures r == [] ==> AllSpace(s)
  {
    if r == [] {
      forall k | 0 <= k < |s| ensures IsSpace(s[k]) {
        if k < i {
          assert s[..i][k] == s[k];
        } else {
          assert s[i..][k - i] == s[k];
        }
      }
    }
  }

  /** The characters before a cut and after it are whitespace; its first and
      last characters are those of the text at its two ends. */
  lemma CutBounds(s: string, r: string, i: int)
    requires CutAt(s, r, i)
    ensures forall k :: 0 <= k < i ==> IsSpace(s[k])
    ensures forall k :: i + |r| <= k < |s| ==> IsSpace(s[k])
    ensures r != [] ==> s[i] == r[0] && s[i + |r| - 1] == r[|r| - 1]
  {
    forall k | 0 <= k < i ensures IsSpace(s[k]) {
      assert s[..i][k] == s[k];
    }
    forall k | i + |r| <= k < |s| ensures IsSpace(s[k]) {
      assert s[i + |r|..][k - i - |r|] == s[k];
    }
  }

  /** Two cuts of the same text that both leave no whitespace at their ends
      are the same text. */
  lemma StripUnique(s: string, a: string, b: string)
    requires IsStripOf(s, a) && IsStripOf(s, b)
    ensures a == b
  {
    var i :| 0 <= i <= |s| && CutAt(s, a, i);
    var j :| 0 <= j <= |s| && CutAt(s, b, j);
    EmptyCut(s, a, i);
    EmptyCut(s, b, j);
    CutBounds(s, a, i);
    CutBounds(s, b, j);
    if a != [] && b != [] {
      assert i == j;
      assert i + |a| == j + |b|;
    }
  }

  /** Strip is exactly the cut of the whitespace ends: no other text is. */
  lemma StripMeaning(s: string, r: string)
    ensures Strip(s) == r <==> IsStripOf(s, r)
  {
    if IsStripOf(s, r) {
      StripUnique(s, Strip(s), r);
    }
  }

  /** The number of leading non-whitespace characters. */
  function WordLength(s: string): (k: nat)
    ensures k <= |s|
    ensures forall i :: 0 <= i < k ==> !IsSpace(s[i])
    ensures k < |s| ==> IsSpace(s[k])
    decreases |s|
  {
    if s == [] || IsSpace(s[0]) then 0 else 1 + WordLength(s[1..])
  }

  /** str.split(): the maximal runs of non-whitespace characters. */
  function Split(s: string): (r: seq<string>)
    ensures forall i :: 0 <= i < |r| ==> IsWord(r[i])
    decreases |s|
  {
    if s == [] then []
    else if IsSpace(s[0]) then Split(s[1..])
    else
      var k := WordLength(s);
      [s[..k]] + Split(s[k..])
  }

  /** A token str.split() can produce: non-empty, without whitespace. */
  predicate IsWord(w: string) {
    w != [] && forall i :: 0 <= i < |w| ==> !IsSpace(w[i])
  }

  /** " ".join(ws) */
  function JoinSpaced(ws: seq<string>): string
    decreases |ws|
  {
    if ws == [] then ""
    else if |ws| == 1 then ws[0]
    else ws[0] + " " + JoinSpaced(ws[1..])
  }

  lemma {:induction false} WordLengthOfWord(w: string, rest: string)
    requires IsWord(w)
    requires rest == [] || IsSpace(rest[0])
    ensures WordLength(w + rest) == |w|
    decreases |w|
  {
    if |w| > 1 {
      assert (w + rest)[1..] == w[1..] + rest;
      WordLengthOfWord(w[1..], rest);
    } else {
      assert (w + rest)[1..] == rest;
    }
  }

  /** A word followed by whitespace (or nothing) is split off whole. */
  lemma SplitWord(w: string, rest: string)
    requires IsWord(w)
    requires rest == [] || IsSpace(rest[0])
    ensures Split(w + rest) == [w] + Split(rest)
  {
    var s := w + rest;
    WordLengthOfWord(w, rest);
    assert s[..|w|] == w;
    assert s[|w|..] == rest;
  }

  /** Splitting a space-joined list of words gives the words back. */
  lemma {:induction false} SplitJoinSpaced(ws: seq<string>)
    requires forall i :: 0 <= i < |ws| ==> IsWord(ws[i])
    ensures Split(JoinSpaced(ws)) == ws
    decreases |ws|
  {
    if |ws| == 1 {
      SplitWord(ws[0], "");
      assert ws[0] + "" == ws[0];
    } else if |ws| > 1 {
      var tail := JoinSpaced(ws[1..]);
      SplitWord(ws[0], " " + tail);
      assert (" " + tail)[1..] == tail;
      assert JoinSpaced(ws) == ws[0] + (" " + tail);
      assert Split(" " + tail) == Split(tail);
      SplitJoinSpaced(ws[1..]);
      assert ws == [ws[0]] + ws[1..];
    }
  }

  /** The words `ws`, each followed by its separator in `seps`. */
  function Laid(ws: seq<string>, seps: seq<string>): string
    requires |seps| == |ws|
    decreases |ws|
  {
    if ws == [] then "" else ws[0] + seps[0] + Laid(ws[1..], seps[1..])
  }

  /** Separators made of whitespace, each non-empty except possibly the last. */
  predicate Separators(seps: seq<string>) {
    && (forall k :: 0 <= k < |seps| ==> AllSpace(seps[k]))
    && (forall k :: 0 <= k < |seps| - 1 ==> seps[k] != [])
  }

  /** `s` is whitespace `lead`, then the words `ws` separated by whitespace
      runs `seps`. */
  predicate LaidOutWith(s: string, ws: seq<string>, lead: string, seps: seq<string>) {
    |seps| == |ws| && AllSpace(lead) && Separators(seps) && s == lead + Laid(ws, seps)
  }

  /** The words `ws` are the maximal non-whitespace runs of `s`, in order. */
  ghost predicate LaysOut(s: string, ws: seq<string>) {
    && (forall i :: 0 <= i < |ws| ==> IsWord(ws[i]))
    && exists lead, seps :: LaidOutWith(s, ws, lead, seps)
  }

  /** Laid-out words start with the first word's first character. */
  lemma LaidStart(ws: seq<string>, seps: seq<string>)
    requires |seps| == |ws| && ws != [] && IsWord(ws[0])
    ensures Laid(ws, seps) != [] && Laid(ws, seps)[0] == ws[0][0]
  {
  }

  /** Whitespace in front of a text does not change its split. */
  lemma {:induction false} SplitAfterSpaces(sp: string, t: string)
    requires AllSpace(sp)
    ensures Split(sp + t) == Split(t)
    decreases |sp|
  {
    if sp != [] {
      assert (sp + t)[1..] == sp[1..] + t;
      assert (sp + t)[0] == sp[0] && IsSpace(sp[0]);
      SplitAfterSpaces(sp[1..], t);
    } else {
      assert sp + t == t;
    }
  }

  /** Splitting words laid out with whitespace separators gives the words. */
  lemma {:induction false} SplitLaid(ws: seq<string>, seps: seq<string>)
    requires |seps| == |ws| && Separators(seps)
    requires forall i :: 0 <= i < |ws| ==> IsWord(ws[i])
    ensures Split(Laid(ws, seps)) == ws
    decreases |ws|
  {
    if ws != [] {
      var rest := Laid(ws[1..], seps[1..]);
      assert Separators(seps[1..]) by {
        forall k | 0 <= k < |seps| - 1 ensures AllSpace(seps[1..][k]) {
          assert seps[1..][k] == seps[k + 1];
        }
      }
      SplitLaid(ws[1..], seps[1..]);
      assert AllSpace(seps[0]);
      if seps[0] == [] {
        assert ws[1..] == [];
        assert seps[0] + rest == [];
      } else {
        assert (seps[0] + rest)[0] == seps[0][0];
      }
      assert Laid(ws, seps) == ws[0] + (seps[0] + rest);
      SplitWord(ws[0], seps[0] + rest);
      SplitAfterSpaces(seps[0], rest);
      assert ws == [ws[0]] + ws[1..];
    }
  }

  /** A text laid out from words splits into exactly those words. */
  lemma SplitOfLaidOut(s: string, ws: seq<string>)
    requires LaysOut(s, ws)
    ensures Split(s) == ws
  {
    var lead, seps :| LaidOutWith(s, ws, lead, seps);
    SplitAfterSpaces(lead, Laid(ws, seps));
    SplitLaid(ws, seps);
  }

  /** The split of a text lays it out: a whitespace lead, then the words with
      their whitespace separators. */
  lemma {:induction false} SplitLaysOut(s: string) returns (lead: string, seps: seq<string>)
    ensures LaidOutWith(s, Split(s), lead, seps)
    decreases |s|
  {
    if s == [] {
      lead, seps := [], [];
    } else if IsSpace(s[0]) {
      var l, sp := SplitLaysOut(s[1..]);
      lead, seps := [s[0]] + l, sp;
      assert s == [s[0]] + s[1..];
    } else {
      var k := WordLength(s);
      var t := s[k..];
      var l, sp := SplitLaysOut(t);
      var ws := Split(t);
      assert Split(s) == [s[..k]] + ws;
      if ws != [] {
        assert k < |s| && IsSpace(t[0]);
        LaidStart(ws, sp);
        assert l != [];
      }
      SeparatorsCons(l, sp);
      LaidCons(s[..k], l, ws, sp);
      lead, seps := [], [l] + sp;
      assert s == s[..k] + t;
    }
  }

  lemma SeparatorsCons(l: string, sp: seq<string>)
    requires AllSpace(l) && Separators(sp) && (sp != [] ==> l != [])
    ensures Separators([l] + sp)
  {
    var seps := [l] + sp;
    forall i | 0 <= i < |seps| ensures AllSpace(seps[i]) {
      if i > 0 {
        assert seps[i] == sp[i - 1];
      }
    }
  }

  lemma LaidCons(w: string, sep: string, ws: seq<string>, seps: seq<string>)
    requires |seps| == |ws|
    ensures Laid([w] + ws, [sep] + seps) == w + sep + Laid(ws, seps)
  {
    assert ([w] + ws)[1..] == ws && ([sep] + seps)[1..] == seps;
  }

  /** str.split() returns exactly the maximal runs of non-whitespace
      characters of the text, in order. */
  lemma SplitMeaning(s: string, ws: seq<string>)
    ensures Split(s) == ws <==> LaysOut(s, ws)
  {
    if Split(s) == ws {
      var lead, seps := SplitLaysOut(s);
    }
    if LaysOut(s, ws) {
      SplitOfLaidOut(s, ws);
    }
  }

  /** A text splits into no words exactly when it is all whitespace. */
  lemma SplitEmpty(s: string)
    ensures Split(s) == [] <==> AllSpace(s)
  {
    if Split(s) == [] {
      var lead, seps := SplitLaysOut(s);
      assert s == lead;
    }
    if AllSpace(s) {
      SplitAfterSpaces(s, "");
      assert s + "" == s;
    }
  }

  predicate IsDigit(c: char) { '0' <= c <= '9' }

  /** The digits and single underscores int() accepts after the sign: runs
      of digits joined by one underscore each, e.g. "10", "007", "1_0". */
  predicate IsDigitString(s: string)
    decreases |s|
  {
    if s == [] || !IsDigit(s[0]) then false
    else if |s| == 1 then true
    else if s[1] == '_' then IsDigitString(s[2..])
    else IsDigitString(s[1..])
  }

  /** The value of the digits, underscores skipped. */
  function DigitsValue(s: string): nat
    decreases |s|
  {
    if s == [] then 0
    else
      var init, last := s[..|s| - 1], s[|s| - 1];
      if IsDigit(last) then DigitsValue(init) * 10 + (last as int - '0' as int)
      else DigitsValue(init)
  }

  /** The digit strings int() accepts, said character by character: digits
      and underscores, a digit at both ends, never two underscores in a row. */
  predicate WellFormedDigits(b: string) {
    && b != [] && IsDigit(b[0]) && IsDigit(b[|b| - 1])
    && (forall i :: 0 <= i < |b| ==> IsDigit(b[i]) || b[i] == '_')
    && (forall i :: 0 <= i < |b| - 1 ==> b[i] == '_' ==> b[i + 1] != '_')
  }

  lemma {:induction false} DigitStringMeaning(b: string)
    ensures IsDigitString(b) <==> WellFormedDigits(b)
    decreases |b|
  {
    if |b| > 1 {
      if b[1] == '_' {
        var t := b[2..];
        DigitStringMeaning(t);
        if WellFormedDigits(b) {
          assert |b| > 2 && b[2] != '_';
          forall i | 0 <= i < |t| ensures IsDigit(t[i]) || t[i] == '_' {
            assert t[i] == b[i + 2];
          }
          forall i | 0 <= i < |t| - 1 ensures t[i] == '_' ==> t[i + 1] != '_' {
            assert t[i] == b[i + 2] && t[i + 1] == b[i + 3];
          }
        }
        if IsDigitString(b) {
          forall i | 0 <= i < |b| ensures IsDigit(b[i]) || b[i] == '_' {
            if i >= 2 {
              assert b[i] == t[i - 2];
            }
          }
          forall i | 0 <= i < |b| - 1 ensures b[i] == '_' ==> b[i + 1] != '_' {
            if i >= 2 {
              assert b[i] == t[i - 2] && b[i + 1] == t[i - 1];
            } else if i == 1 {
              assert b[2] == t[0];
            }
          }
          assert b[|b| - 1] == t[|t| - 1];
        }
      } else {
        var t := b[1..];
        DigitStringMeaning(t);
        if WellFormedDigits(b) {
          forall i | 0 <= i < |t| ensures IsDigit(t[i]) || t[i] == '_' {
            assert t[i] == b[i + 1];
          }
          forall i | 0 <= i < |t| - 1 ensures t[i] == '_' ==> t[i + 1] != '_' {
            assert t[i] == b[i + 1] && t[i + 1] == b[i + 2];
          }
        }
        if IsDigitString(b) {
          forall i | 0 <= i < |b| ensures IsDigit(b[i]) || b[i] == '_' {
            if i >= 1 {
              assert b[i] == t[i - 1];
            }
          }
          forall i | 0 <= i < |b| - 1 ensures b[i] == '_' ==> b[i + 1] != '_' {
            if i >= 1 {
              assert b[i] == t[i - 1] && b[i + 1] == t[i];
            }
          }
          assert b[|b| - 1] == t[|t| - 1];
        }
      }
    }
  }

  /** The texts int() accepts: a well-formed digit string, optionally signed. */
  predicate IsIntLiteral(s: string) {
    WellFormedDigits(s) || (s != [] && (s[0] == '+' || s[0] == '-') && WellFormedDigits(s[1..]))
  }

  /** A text int() accepts holds digits and underscores, and a sign only in
      front. */
  lemma IntLiteralChars(s: string)
    ensures IsIntLiteral(s) ==> forall i :: 0 <= i < |s| ==>
      IsDigit(s[i]) || s[i] == '_' || (i == 0 && (s[0] == '+' || s[0] == '-'))
  {
    if !WellFormedDigits(s) && IsIntLiteral(s) {
      forall i | 1 <= i < |s| ensures IsDigit(s[i]) || s[i] == '_' {
        assert s[i] == s[1..][i - 1];
      }
    }
  }

  /** The digit characters of `s`, in order. */
  function Digits(s: string): (ds: string)
    ensures forall i :: 0 <= i < |ds| ==> IsDigit(ds[i])
    decreases |s|
  {
    if s == [] then [] else (if IsDigit(s[0]) then [s[0]] else []) + Digits(s[1..])
  }

  function Pow10(n: nat): nat {
    if n == 0 then 1 else 10 * Pow10(n - 1)
  }

  /** Positional notation: each digit times ten to the power of its place. */
  function DecimalValue(ds: string): int
    decreases |ds|
  {
    if ds == [] then 0 else DigitValue(ds[0]) * Pow10(|ds| - 1) + DecimalValue(ds[1..])
  }

  lemma {:induction false} DigitsAppend(s: string, c: char)
    ensures Digits(s + [c]) == Digits(s) + (if IsDigit(c) then [c] else [])
    decreases |s|
  {
    if s == [] {
      assert [] + [c] == [c];
    } else {
      assert (s + [c])[1..] == s[1..] + [c];
      DigitsAppend(s[1..], c);
    }
  }

  lemma {:induction false} DecimalAppend(ds: string, d: char)
    ensures DecimalValue(ds + [d]) == 10 * DecimalValue(ds) + DigitValue(d)
    decreases |ds|
  {
    if ds == [] {
      assert [] + [d] == [d];
    } else {
      assert (ds + [d])[1..] == ds[1..] + [d];
      DecimalAppend(ds[1..], d);
    }
  }

  /** Reading the digits from the right, as DigitsValue does, gives their
      positional value; underscores count for nothing. */
  lemma {:induction false} DigitsValueIsDecimal(s: string)
    ensures DigitsValue(s) == DecimalValue(Digits(s))
    decreases |s|
  {
    if s != [] {
      var init, last := s[..|s| - 1], s[|s| - 1];
      assert s == init + [last];
      DigitsValueIsDecimal(init);
      DigitsAppend(init, last);
      if IsDigit(last) {
        DecimalAppend(Digits(init), last);
      } else {
        assert Digits(init) + [] == Digits(init);
      }
    }
  }

  /** Python's int() on an already stripped string: an optional sign and a
      digit string, or a ValueError (None). The value is that of the digits
      in positional notation, negated after a '-'. */
  function ParseInt(s: string): (r: Option<int>)
    ensures r.Some? <==> IsIntLiteral(s)
    ensures r.Some? ==> r.value == if s[0] == '-' then -DecimalValue(Digits(s)) else DecimalValue(Digits(s))
  {
    DigitStringMeaning(s);
    DigitsValueIsDecimal(s);
    if s != [] && (s[0] == '+' || s[0] == '-') then
      var body := s[1..];
      DigitStringMeaning(body);
      DigitsValueIsDecimal(body);
      assert Digits(s) == Digits(body);
      if IsDigitString(body) then
        Some(if s[0] == '-' then -(DigitsValue(body) as int) else DigitsValue(body))
      else None
    else if IsDigitString(s) then Some(DigitsValue(s))
    else None
  }

  function DigitValue(d: char): int { d as int - '0' as int }

  lemma DigitStringOfOne(d: char)
    requires IsDigit(d)
    ensures IsDigitString([d]) && DigitsValue([d]) == DigitValue(d)
  {
    assert [d][..0] == [];
  }

  /** int() of one digit is its value. */
  lemma ParseOneDigit(d: char)
    requires IsDigit(d)
    ensures ParseInt([d]) == Some(DigitValue(d))
  {
    DigitStringOfOne(d);
  }

  lemma DigitStringOfTwo(a: char, b: char)
    requires IsDigit(a) && IsDigit(b)
    ensures IsDigitString([a, b]) && DigitsValue([a, b]) == 10 * DigitValue(a) + DigitValue(b)
  {
    assert [a, b][1..] == [b] && [a, b][..1] == [a];
    DigitStringOfOne(a);
    DigitStringOfOne(b);
  }

  /** int() of two digits, a leading zero allowed ("07" is 7). */
  lemma ParseTwoDigits(a: char, b: char)
    requires IsDigit(a) && IsDigit(b)
    ensures ParseInt([a, b]) == Some(10 * DigitValue(a) + DigitValue(b))
  {
    DigitStringOfTwo(a, b);
  }

  /** Lexicographic order on code points (SQLite's BINARY collation and
      Python's string comparison). */
  predicate Less(a: string, b: string)
    decreases |a|
  {
    if a == [] then b != []
    else if b == [] then false
    else if a[0] == b[0] then Less(a[1..], b[1..])
    else a[0] < b[0]
  }

  lemma {:induction false} LessIrreflexive(a: string)
    ensures !Less(a, a)
    decreases |a|
  {
    if a != [] {
      LessIrreflexive(a[1..]);
    }
  }

  lemma {:induction false} LessTransitive(a: string, b: string, c: string)
    requires Less(a, b) && Less(b, c)
    ensures Less(a, c)
    decreases |a|
  {
    if a != [] && b != [] && c != [] && a[0] == b[0] && b[0] == c[0] {
      LessTransitive(a[1..], b[1..], c[1..]);
    }
  }

  lemma {:induction false} LessTotal(a: string, b: string)
    ensures a == b || Less(a, b) || Less(b, a)
    decreases |a|
  {
    if a != [] && b != [] && a[0] == b[0] {
      LessTotal(a[1..], b[1..]);
      if a[1..] == b[1..] {
        assert a == [a[0]] + a[1..] && b == [b[0]] + b[1..];
      }
    }
  }

  lemma {:induction false} LessAsymmetric(a: string, b: string)
    requires Less(a, b)
    ensures !Less(b, a)
    decreases |a|
  {
    if a != [] && b != [] && a[0] == b[0] {
      LessAsymmetric(a[1..], b[1..]);
    }
  }
}
