/**
 * The pure string core of the download-naming listener in bunkr/background.js:
 * `sanitize`, the plausible-extension test `hasExt` and the `finalName` rule.
 */
module Naming {

  /** The characters that JavaScript's `\s` class and `String.prototype.trim` treat as white space. */
  predicate IsSpace(c: char) {
    || c == ' ' || c == '\t' || c == '\n' || c == '\U{000B}' || c == '\U{000C}' || c == '\r'
    || c == '\U{00A0}' || c == '\U{1680}' || ('\U{2000}' <= c <= '\U{200A}')
    || c == '\U{2028}' || c == '\U{2029}' || c == '\U{202F}' || c == '\U{205F}'
    || c == '\U{3000}' || c == '\U{FEFF}'
  }

  /** The characters of the class `[\\/:*?"<>|]`, which file systems refuse in a file name. */
  predicate IsReserved(c: char) {
    c == '\\' || c == '/' || c == ':' || c == '*' || c == '?' || c == '"' || c == '<' || c == '>' || c == '|'
  }

  /** A character that `sanitize` turns into, or merges into, a separating space. */
  predicate IsSeparator(c: char) {
    IsReserved(c) || IsSpace(c)
  }

  /** An ASCII letter or digit: what `[a-z0-9]` matches under the `i` flag. */
  predicate IsAlnum(c: char) {
    ('a' <= c <= 'z') || ('A' <= c <= 'Z') || ('0' <= c <= '9')
  }

  /** What is left of `s` once its leading run of characters satisfying `p` is dropped. */
  function DropRun(s: string, p: char -> bool): (r: string)
    ensures |r| <= |s| && r == s[|s| - |r|..]
    ensures forall i :: 0 <= i < |s| - |r| ==> p(s[i])
    ensures r != [] ==> !p(r[0])
  {
    if s != [] && p(s[0]) then
      var t := s[1..];
      assert forall i :: 0 <= i < |t| ==> t[i] == s[i + 1];
      DropRun(t, p)
    else s
  }

  /**
   * The text of `s` as the replacements see it: its characters that are
   * neither in the class `p` nor a plain space, in order.
   */
  function Kept(s: string, p: char -> bool): (r: string)
    ensures |r| <= |s|
    ensures forall i :: 0 <= i < |r| ==> !p(r[i]) && r[i] != ' '
  {
    if s == [] then []
    else if p(s[0]) || s[0] == ' ' then Kept(s[1..], p)
    else [s[0]] + Kept(s[1..], p)
  }

  /** The text of a string that starts with `c`. */
  lemma KeptCons(c: char, s: string, p: char -> bool)
    ensures Kept([c] + s, p) == if p(c) || c == ' ' then Kept(s, p) else [c] + Kept(s, p)
  {
  }

  /** The text of a concatenation is the concatenation of the texts. */
  lemma {:induction false} KeptConcat(a: string, b: string, p: char -> bool)
    ensures Kept(a + b, p) == Kept(a, p) + Kept(b, p)
    decreases |a|
  {
    if a != [] {
      var c, t := a[0], a[1..];
      assert a == [c] + t && a + b == [c] + (t + b);
      KeptCons(c, t, p);
      KeptCons(c, t + b, p);
      KeptConcat(t, b, p);
      if !(p(c) || c == ' ') {
        assert [c] + (Kept(t, p) + Kept(b, p)) == ([c] + Kept(t, p)) + Kept(b, p);
      }
    } else {
      assert a + b == b;
    }
  }

  /** Dropping a leading run of characters that carry no text for `q` keeps the text. */
  lemma {:induction false} DropRunKeepsText(s: string, p: char -> bool, q: char -> bool)
    requires forall c :: p(c) ==> q(c)
    ensures Kept(DropRun(s, p), q) == Kept(s, q)
    decreases |s|
  {
    if s != [] && p(s[0]) {
      assert s == [s[0]] + s[1..];
      KeptCons(s[0], s[1..], q);
      DropRunKeepsText(s[1..], p, q);
    }
  }

  /** A leading run of class characters carries no text. */
  lemma KeptAfterRun(s: string, p: char -> bool)
    requires s != [] && p(s[0])
    ensures Kept(s, p) == Kept(DropRun(s[1..], p), p)
  {
  }

  /** Taking the text for a class `p` and then for a wider class `q` is taking the text for `q`. */
  lemma {:induction false} KeptWider(s: string, p: char -> bool, q: char -> bool)
    requires forall c :: p(c) ==> q(c)
    ensures Kept(Kept(s, p), q) == Kept(s, q)
    decreases |s|
  {
    if s != [] {
      KeptWider(s[1..], p, q);
      if !(p(s[0]) || s[0] == ' ') {
        assert ([s[0]] + Kept(s[1..], p))[1..] == Kept(s[1..], p);
      }
    }
  }

  /**
   * A global replace of the pattern `[...]+` by " ": every maximal run of
   * characters satisfying `p` becomes one space, everything else is kept.
   */
  function ReplaceRuns(s: string, p: char -> bool): (r: string)
    // a character that survives is a space put in by the replacement, or one that `p` refuses
    ensures forall i :: 0 <= i < |r| ==> r[i] == ' ' || !p(r[i])
    // a replacement space is never followed by another character of the class
    ensures p(' ') ==> forall i :: 0 <= i < |r| - 1 ==> !(p(r[i]) && p(r[i + 1]))
    // the text outside the class and the spaces is kept, in order
    ensures Kept(r, p) == Kept(s, p)
    ensures r == [] <==> s == []
    decreases |s|
  {
    if s == [] then []
    else if p(s[0]) then
      var rest := DropRun(s[1..], p);
      KeptAfterRun(s, p);
      KeptCons(' ', ReplaceRuns(rest, p), p);
      [' '] + ReplaceRuns(rest, p)
    else
      KeptCons(s[0], s[1..], p);
      KeptCons(s[0], ReplaceRuns(s[1..], p), p);
      assert s == [s[0]] + s[1..];
      [s[0]] + ReplaceRuns(s[1..], p)
  }

  /**
   * The replacement brings in no character but the space: a property of
   * characters that holds of no character of `s` and not of the space holds
   * of no character of the result.
   */
  lemma {:induction false} ReplaceRunsKeeps(s: string, p: char -> bool, q: char -> bool)
    requires !q(' ') && forall i :: 0 <= i < |s| ==> !q(s[i])
    ensures forall i :: 0 <= i < |ReplaceRuns(s, p)| ==> !q(ReplaceRuns(s, p)[i])
    decreases |s|
  {
    if s != [] {
      if p(s[0]) {
        var rest := DropRun(s[1..], p);
        assert forall i :: 0 <= i < |rest| ==> rest[i] == s[|s| - |rest| + i];
        ReplaceRunsKeeps(rest, p, q);
      } else {
        assert forall i :: 0 <= i < |s[1..]| ==> s[1..][i] == s[i + 1];
        ReplaceRunsKeeps(s[1..], p, q);
      }
    }
  }

  /** JavaScript's `ws.join(sep)`: the strings of `ws` with `sep` between each two neighbours. */
  function Join(ws: seq<string>, sep: string): string
  {
    if ws == [] then [] else if |ws| == 1 then ws[0] else ws[0] + sep + Join(ws[1..], sep)
  }

  /** Putting `c` in front of the first string puts it in front of the join. */
  lemma JoinPrepend(c: char, ws: seq<string>, sep: string)
    requires ws != []
    ensures Join([[c] + ws[0]] + ws[1..], sep) == [c] + Join(ws, sep)
  {
    assert ([[c] + ws[0]] + ws[1..])[1..] == ws[1..];
  }

  /** The characters of `s` that `p` refuses, in order. */
  function Outside(s: string, p: char -> bool): (r: string)
    ensures |r| <= |s|
    ensures forall i :: 0 <= i < |r| ==> !p(r[i])
  {
    if s == [] then []
    else if p(s[0]) then Outside(s[1..], p)
    else [s[0]] + Outside(s[1..], p)
  }

  /** A leading run of class characters has nothing outside the class. */
  lemma {:induction false} OutsideDropRun(s: string, p: char -> bool)
    ensures Outside(DropRun(s, p), p) == Outside(s, p)
    decreases |s|
  {
    if s != [] && p(s[0]) {
      OutsideDropRun(s[1..], p);
    }
  }

  /** The strings of `ps` one after another. */
  function Concat(ps: seq<string>): string
  {
    if ps == [] then [] else ps[0] + Concat(ps[1..])
  }

  /**
   * JavaScript's `s.split(re)` for a pattern `re` that matches a maximal run
   * of characters satisfying `p`: the pieces between the runs, in order, with
   * an empty first or last piece when `s` starts or ends with a run.
   */
  function SplitRuns(s: string, p: char -> bool): (ps: seq<string>)
    ensures ps != []
    // no piece holds a character of the class
    ensures forall i, j :: 0 <= i < |ps| && 0 <= j < |ps[i]| ==> !p(ps[i][j])
    // the runs are maximal: only the first and the last piece can be empty
    ensures forall i :: 0 < i < |ps| - 1 ==> ps[i] != []
    ensures s != [] && !p(s[0]) ==> ps[0] != []
    decreases |s|
  {
    if s == [] then [[]]
    else if p(s[0]) then
      var rest := DropRun(s[1..], p);
      var ps := SplitRuns(rest, p);
      assert rest == [] ==> ps == [[]];
      [[]] + ps
    else
      var ps := SplitRuns(s[1..], p);
      var first := [s[0]] + ps[0];
      assert forall j :: 0 <= j < |first| ==> first[j] == if j == 0 then s[0] else ps[0][j - 1];
      [first] + ps[1..]
  }

  /** The pieces of the split, one after another, are `s` without its class characters. */
  lemma {:induction false} SplitRunsKeepsOutside(s: string, p: char -> bool)
    ensures Concat(SplitRuns(s, p)) == Outside(s, p)
    decreases |s|
  {
    if s != [] {
      if p(s[0]) {
        var rest := DropRun(s[1..], p);
        var ps := SplitRuns(rest, p);
        SplitRunsKeepsOutside(rest, p);
        OutsideDropRun(s[1..], p);
        assert ([[]] + ps)[1..] == ps;
      } else {
        var ps := SplitRuns(s[1..], p);
        var first := [s[0]] + ps[0];
        SplitRunsKeepsOutside(s[1..], p);
        assert ([first] + ps[1..])[1..] == ps[1..];
        assert first + Concat(ps[1..]) == [s[0]] + (ps[0] + Concat(ps[1..]));
      }
    }
  }

  /** The replace is `s.split(re).join(" ")`: every maximal run of the class becomes exactly one space. */
  lemma {:induction false} ReplaceRunsSplitJoin(s: string, p: char -> bool)
    ensures ReplaceRuns(s, p) == Join(SplitRuns(s, p), " ")
    decreases |s|
  {
    if s != [] {
      if p(s[0]) {
        var rest := DropRun(s[1..], p);
        ReplaceRunsSplitJoin(rest, p);
        assert ([[]] + SplitRuns(rest, p))[1..] == SplitRuns(rest, p);
      } else {
        ReplaceRunsSplitJoin(s[1..], p);
        JoinPrepend(s[0], SplitRuns(s[1..], p), " ");
      }
    }
  }

  /** `s` without its trailing white space. */
  function TrimEnd(s: string): (r: string)
    ensures |r| <= |s| && r == s[..|r|]
    ensures r != [] ==> !IsSpace(r[|r| - 1])
    ensures forall i :: |r| <= i < |s| ==> IsSpace(s[i])
  {
    if s != [] && IsSpace(s[|s| - 1]) then TrimEnd(s[..|s| - 1]) else s
  }

  /** How many white-space characters `s` begins with. */
  function LeadingSpaces(s: string): (n: nat)
    ensures n <= |s|
  {
    |s| - |DropRun(s, IsSpace)|
  }

  /** Positions `lo` .. `hi - 1` of `s` hold white space. */
  predicate AllSpace(s: string, lo: int, hi: int) {
    forall i :: 0 <= lo <= i < hi <= |s| ==> IsSpace(s[i])
  }

  /** `String.prototype.trim`: `s` without leading and trailing white space. */
  function Trim(s: string): (r: string)
    ensures r != [] ==> !IsSpace(r[0]) && !IsSpace(r[|r| - 1])
    ensures LeadingSpaces(s) + |r| <= |s| && r == s[LeadingSpaces(s)..LeadingSpaces(s) + |r|]
    // only white space is dropped, at either end
    ensures AllSpace(s, 0, LeadingSpaces(s)) && AllSpace(s, LeadingSpaces(s) + |r|, |s|)
  {
    var d := DropRun(s, IsSpace);
    var r := TrimEnd(d);
    TrimDropsSpaces(s, d, |s| - |d|, r);
    r
  }

  /**
   * Dropping white space from the front of `s`, leaving `d`, then from the back of `d`,
   * leaving `r`, keeps a slice of `s` and drops only white space around it.
   */
  lemma TrimDropsSpaces(s: string, d: string, n: nat, r: string)
    requires n + |d| == |s| && d == s[n..] && |r| <= |d| && r == d[..|r|]
    requires d != [] ==> !IsSpace(d[0])
    requires r != [] ==> !IsSpace(r[|r| - 1])
    requires forall i :: 0 <= i < n ==> IsSpace(s[i])
    requires forall i :: |r| <= i < |d| ==> IsSpace(d[i])
    ensures r != [] ==> !IsSpace(r[0]) && !IsSpace(r[|r| - 1])
    ensures n + |r| <= |s| && r == s[n..n + |r|]
    ensures AllSpace(s, 0, n) && AllSpace(s, n + |r|, |s|)
  {
  }

  /** No character of `s` is reserved. */
  predicate NoReserved(s: string) {
    forall i :: 0 <= i < |s| ==> !IsReserved(s[i])
  }

  /** The only white-space character in `s` is the plain space. */
  predicate PlainSpaces(s: string) {
    forall i :: 0 <= i < |s| ==> IsSpace(s[i]) ==> s[i] == ' '
  }

  /** No two white-space characters of `s` stand next to each other. */
  predicate SingleSpaces(s: string) {
    forall i :: 0 <= i < |s| - 1 ==> !(IsSpace(s[i]) && IsSpace(s[i + 1]))
  }

  /**
   * A name as `sanitize` leaves it: no reserved character, every white-space
   * character is a plain space, no two white-space characters in a row, and
   * no white space at either end.
   */
  predicate Clean(s: string) {
    && NoReserved(s) && PlainSpaces(s) && SingleSpaces(s)
    && (s != [] ==> !IsSpace(s[0]) && !IsSpace(s[|s| - 1]))
  }

  /** Collapsing the white space of a name without reserved characters. */
  lemma CollapseKeeps(a: string)
    requires NoReserved(a)
    ensures var b := ReplaceRuns(a, IsSpace);
      NoReserved(b) && PlainSpaces(b) && SingleSpaces(b)
  {
    ReplaceRunsKeeps(a, IsSpace, IsReserved);
  }

  /** Replacing the runs of reserved characters leaves none. */
  lemma ReservedGone(s: string)
    ensures NoReserved(ReplaceRuns(s, IsReserved))
  {
  }

  /** Trimming a name with the three character-level properties of `Clean` makes it clean. */
  lemma TrimCleans(b: string)
    requires NoReserved(b) && PlainSpaces(b) && SingleSpaces(b)
    ensures Clean(Trim(b))
  {
    var r := Trim(b);
    SliceClean(b, LeadingSpaces(b), r);
  }

  /**
   * A slice `r` of a string with the three character-level properties of
   * `Clean` that has no white space at either end is clean.
   */
  lemma SliceClean(b: string, n: nat, r: string)
    requires NoReserved(b) && PlainSpaces(b) && SingleSpaces(b)
    requires n + |r| <= |b| && r == b[n..n + |r|]
    requires r != [] ==> !IsSpace(r[0]) && !IsSpace(r[|r| - 1])
    ensures Clean(r)
  {
    assert forall i :: 0 <= i < |r| ==> r[i] == b[n + i];
  }

  /** The three stages of `sanitize` leave a clean name. */
  lemma StagesClean(s: string)
    ensures Clean(Trim(ReplaceRuns(ReplaceRuns(s, IsReserved), IsSpace)))
  {
    var a := ReplaceRuns(s, IsReserved);
    ReservedGone(s);
    CollapseKeeps(a);
    TrimCleans(ReplaceRuns(a, IsSpace));
  }

  /** Dropping trailing white space keeps the text. */
  lemma {:induction false} TrimEndKeepsText(s: string)
    ensures Kept(TrimEnd(s), IsSeparator) == Kept(s, IsSeparator)
    decreases |s|
  {
    if s != [] && IsSpace(s[|s| - 1]) {
      var init, last := s[..|s| - 1], s[|s| - 1];
      assert s == init + [last];
      KeptConcat(init, [last], IsSeparator);
      KeptCons(last, [], IsSeparator);
      assert [last] + [] == [last];
      TrimEndKeepsText(init);
    }
  }

  /** Trimming keeps the text: only white space is dropped. */
  lemma TrimKeepsText(b: string)
    ensures Kept(Trim(b), IsSeparator) == Kept(b, IsSeparator)
  {
    DropRunKeepsText(b, IsSpace, IsSeparator);
    TrimEndKeepsText(DropRun(b, IsSpace));
  }

  /** The three stages of `sanitize` keep every character that is neither reserved nor white space, in order. */
  lemma StagesKeepText(s: string)
    ensures Kept(Trim(ReplaceRuns(ReplaceRuns(s, IsReserved), IsSpace)), IsSeparator) == Kept(s, IsSeparator)
  {
    var a := ReplaceRuns(s, IsReserved);
    var b := ReplaceRuns(a, IsSpace);
    KeptWider(s, IsReserved, IsSeparator);
    KeptWider(a, IsReserved, IsSeparator);
    KeptWider(a, IsSpace, IsSeparator);
    KeptWider(b, IsSpace, IsSeparator);
    TrimKeepsText(b);
  }

  /**
   * The words of `s`: its maximal runs of characters that are neither
   * reserved nor white space, in order. A separator belongs to no word; a
   * word character is a word of its own when a separator or the end follows
   * it, and otherwise begins the word that the next character starts.
   */
  function Words(s: string): (ws: seq<string>)
    ensures forall i :: 0 <= i < |ws| ==> ws[i] != []
    ensures forall i, j :: 0 <= i < |ws| && 0 <= j < |ws[i]| ==> !IsSeparator(ws[i][j])
    ensures s != [] && !IsSeparator(s[0]) ==> ws != []
    decreases |s|
  {
    if s == [] then []
    else if IsSeparator(s[0]) then Words(s[1..])
    else
      var ws := Words(s[1..]);
      if |s| == 1 || IsSeparator(s[1]) then [[s[0]]] + ws
      else [[s[0]] + ws[0]] + ws[1..]
  }

  /** The words of a string that starts with `c`, in terms of the words of the rest. */
  lemma WordsCons(c: char, x: string)
    ensures Words([c] + x) ==
      if IsSeparator(c) then Words(x)
      else if x == [] || IsSeparator(x[0]) then [[c]] + Words(x)
      else [[c] + Words(x)[0]] + Words(x)[1..]
  {
    assert ([c] + x)[1..] == x;
  }

  /** A string made only of separators has no words. */
  lemma {:induction false} SeparatorsHaveNoWords(s: string)
    requires forall i :: 0 <= i < |s| ==> IsSeparator(s[i])
    ensures Words(s) == []
    decreases |s|
  {
    if s != [] {
      SeparatorsHaveNoWords(s[1..]);
    }
  }

  /** Dropping a leading run of separators keeps the words. */
  lemma {:induction false} DropRunKeepsWords(s: string, p: char -> bool)
    requires forall c :: p(c) ==> IsSeparator(c)
    ensures Words(DropRun(s, p)) == Words(s)
    decreases |s|
  {
    if s != [] && p(s[0]) {
      assert s == [s[0]] + s[1..];
      WordsCons(s[0], s[1..]);
      DropRunKeepsWords(s[1..], p);
    }
  }

  /** Replacing runs of separators by a space keeps the words. */
  lemma {:induction false} ReplaceRunsKeepsWords(s: string, p: char -> bool)
    requires forall c :: p(c) ==> IsSeparator(c)
    ensures Words(ReplaceRuns(s, p)) == Words(s)
    decreases |s|
  {
    if s != [] {
      var t := s[1..];
      assert s == [s[0]] + t;
      WordsCons(s[0], t);
      if p(s[0]) {
        var rest := DropRun(t, p);
        DropRunKeepsWords(t, p);
        ReplaceRunsKeepsWords(rest, p);
        WordsCons(' ', ReplaceRuns(rest, p));
      } else {
        var u := ReplaceRuns(t, p);
        ReplaceRunsKeepsWords(t, p);
        WordsCons(s[0], u);
        if t != [] {
          assert u[0] == if p(t[0]) then ' ' else t[0];
        }
      }
    }
  }

  /** A separator at the end adds nothing to the words. */
  lemma {:induction false} WordsSnocSeparator(x: string, c: char)
    requires IsSeparator(c)
    ensures Words(x + [c]) == Words(x)
    decreases |x|
  {
    if x == [] {
      WordsCons(c, []);
      assert [] + [c] == [c] + [];
    } else {
      var t := x[1..];
      assert x == [x[0]] + t && x + [c] == [x[0]] + (t + [c]);
      WordsSnocSeparator(t, c);
      WordsCons(x[0], t);
      WordsCons(x[0], t + [c]);
      if t != [] {
        assert (t + [c])[0] == t[0];
      } else {
        WordsCons(c, []);
        assert t + [c] == [c] + [];
      }
    }
  }

  /** Dropping trailing white space keeps the words. */
  lemma {:induction false} TrimEndKeepsWords(s: string)
    ensures Words(TrimEnd(s)) == Words(s)
    decreases |s|
  {
    if s != [] && IsSpace(s[|s| - 1]) {
      var init := s[..|s| - 1];
      assert s == init + [s[|s| - 1]];
      WordsSnocSeparator(init, s[|s| - 1]);
      TrimEndKeepsWords(init);
    }
  }

  /** Trimming keeps the words. */
  lemma TrimKeepsWords(b: string)
    ensures Words(Trim(b)) == Words(b)
  {
    DropRunKeepsWords(b, IsSpace);
    TrimEndKeepsWords(DropRun(b, IsSpace));
  }

  /** A suffix of a clean name that does not start with white space is clean. */
  lemma CleanSuffix(c: string, k: nat)
    requires Clean(c) && k < |c| && !IsSpace(c[k])
    ensures Clean(c[k..])
  {
    var d := c[k..];
    assert forall i :: 0 <= i < |d| ==> d[i] == c[k + i];
  }

  /** In a clean name, a separator after the first character is a lone plain space followed by a word character. */
  lemma CleanSeparator(c: string)
    requires Clean(c) && 1 < |c| && IsSeparator(c[1])
    ensures c[1] == ' ' && 2 < |c| && !IsSeparator(c[2]) && Clean(c[2..])
  {
    CleanSuffix(c, 2);
  }

  /** A clean name is its words joined by single spaces. */
  lemma {:induction false} CleanIsJoinedWords(c: string)
    requires Clean(c)
    ensures c == Join(Words(c), " ")
    decreases |c|
  {
    if c != [] {
      var x := c[1..];
      assert c == [c[0]] + x;
      WordsCons(c[0], x);
      if x != [] && IsSeparator(x[0]) {
        var y := c[2..];
        CleanSeparator(c);
        assert x == [' '] + y;
        WordsCons(' ', y);
        CleanIsJoinedWords(y);
        assert ([[c[0]]] + Words(y))[1..] == Words(y);
      } else if x != [] {
        CleanSuffix(c, 1);
        CleanIsJoinedWords(x);
        JoinPrepend(c[0], Words(x), " ");
      }
    }
  }

  /** The three stages of `sanitize` join the words of the name by single spaces. */
  lemma StagesJoinWords(s: string)
    ensures Trim(ReplaceRuns(ReplaceRuns(s, IsReserved), IsSpace)) == Join(Words(s), " ")
  {
    var a := ReplaceRuns(s, IsReserved);
    var b := ReplaceRuns(a, IsSpace);
    ReplaceRunsKeepsWords(s, IsReserved);
    ReplaceRunsKeepsWords(a, IsSpace);
    TrimKeepsWords(b);
    StagesClean(s);
    CleanIsJoinedWords(Trim(b));
  }

  /**
   * `sanitize`: runs of reserved characters become one space, runs of white
   * space become one space, and the result is trimmed.
   */
  function Sanitize(s: string): (r: string)
    // the words of the name, joined by single spaces
    ensures r == Join(Words(s), " ")
    ensures Clean(r)
    // every character that is neither reserved nor white space is kept, in order
    ensures Kept(r, IsSeparator) == Kept(s, IsSeparator)
  {
    StagesJoinWords(s);
    StagesClean(s);
    StagesKeepText(s);
    Trim(ReplaceRuns(ReplaceRuns(s, IsReserved), IsSpace))
  }

  /**
   * A string in which every character of the class is a lone plain space is
   * its own replacement.
   */
  lemma {:induction false} ReplaceRunsFixed(s: string, p: char -> bool)
    requires forall i :: 0 <= i < |s| && p(s[i]) ==> s[i] == ' ' && (i + 1 < |s| ==> !p(s[i + 1]))
    ensures ReplaceRuns(s, p) == s
    decreases |s|
  {
    if s != [] {
      var t := s[1..];
      forall i | 0 <= i < |t| && p(t[i]) ensures t[i] == ' ' && (i + 1 < |t| ==> !p(t[i + 1])) {
        assert t[i] == s[i + 1];
        if i + 1 < |t| {
          assert t[i + 1] == s[i + 2];
        }
      }
      ReplaceRunsFixed(t, p);
      if p(s[0]) {
        assert t == [] || !p(t[0]);
        assert DropRun(t, p) == t;
        assert ReplaceRuns(s, p) == [' '] + t;
      } else {
        assert ReplaceRuns(s, p) == [s[0]] + t;
      }
      assert [s[0]] + t == s;
    }
  }

  /** A clean name is left as it is by `sanitize`. */
  lemma CleanIsFixed(t: string)
    requires Clean(t)
    ensures Sanitize(t) == t
  {
    ReplaceRunsFixed(t, IsReserved);
    ReplaceRunsFixed(t, IsSpace);
    assert DropRun(t, IsSpace) == t;
  }

  /** `sanitize` is idempotent. */
  lemma SanitizeIdempotent(s: string)
    ensures Sanitize(Sanitize(s)) == Sanitize(s)
  {
    CleanIsFixed(Sanitize(s));
  }

  /**
   * The regular expression `/\.[a-z0-9]{2,5}$/i`: the name ends with a dot
   * followed by two to five ASCII letters or digits.
   */
  ghost predicate EndsWithExtension(s: string) {
    exists lo :: ExtensionFrom(s, lo)
  }

  /** The last `|s| - lo` characters of `s`, two to five of them, are letters or digits after a dot. */
  predicate ExtensionFrom(s: string, lo: int) {
    1 <= lo && 2 <= |s| - lo <= 5 && s[lo - 1] == '.' && AlnumFrom(s, lo)
  }

  /** Every character of `s` from position `lo` on is an ASCII letter or digit. */
  predicate AlnumFrom(s: string, lo: int) {
    forall i :: 0 <= lo <= i < |s| ==> IsAlnum(s[i])
  }

  /** The length of the longest suffix of `s` made of ASCII letters and digits. */
  function AlnumSuffix(s: string): (n: nat)
    ensures n <= |s| && AlnumFrom(s, |s| - n)
    ensures n < |s| ==> !IsAlnum(s[|s| - n - 1])
  {
    if s != [] && IsAlnum(s[|s| - 1]) then AlnumSuffix(s[..|s| - 1]) + 1 else 0
  }

  /** A plausible extension can only start right after the dot that ends the longest alphanumeric suffix. */
  lemma ExtensionStartsAtSuffix(s: string)
    ensures forall lo :: ExtensionFrom(s, lo) ==> lo == |s| - AlnumSuffix(s)
  {
  }

  /** `hasExt`: the test of a plausible extension at the end of the name. */
  function HasExt(s: string): (b: bool)
    ensures b <==> EndsWithExtension(s)
  {
    var n := AlnumSuffix(s);
    ExtensionStartsAtSuffix(s);
    if 2 <= n <= 5 && n < |s| && s[|s| - n - 1] == '.' then
      assert ExtensionFrom(s, |s| - n);
      true
    else
      false
  }

  /** `finalName`: the name unchanged if it has a plausible extension, otherwise with ".bin" appended. */
  function FinalName(name: string): (r: string)
    ensures HasExt(r)
    ensures HasExt(name) ==> r == name
    ensures !HasExt(name) ==> r == name + ".bin"
  {
    if HasExt(name) then name
    else
      var r := name + ".bin";
      assert ExtensionFrom(r, |r| - 3);
      r
  }

  /** Applying the extension rule twice never appends ".bin" twice. */
  lemma FinalNameIdempotent(name: string)
    ensures FinalName(FinalName(name)) == FinalName(name)
  {
  }

  /** Joining two strings keeps the character-level properties of `Clean` unless a space meets a space. */
  lemma ConcatKeeps(x: string, y: string)
    requires NoReserved(x) && PlainSpaces(x) && SingleSpaces(x)
    requires NoReserved(y) && PlainSpaces(y) && SingleSpaces(y)
    requires x != [] && y != [] ==> !IsSpace(y[0])
    ensures NoReserved(x + y) && PlainSpaces(x + y) && SingleSpaces(x + y)
  {
  }

  /** A clean name stays clean when ".bin" is appended. */
  lemma FinalNameClean(name: string)
    requires Clean(name)
    ensures Clean(FinalName(name))
  {
    if !HasExt(name) {
      var ext := ".bin";
      var r := name + ext;
      assert forall i :: 0 <= i < |ext| ==> !IsSpace(ext[i]) && !IsReserved(ext[i]);
      ConcatKeeps(name, ext);
      assert r[0] == if name == [] then '.' else name[0];
      assert r[|r| - 1] == 'n';
    }
  }
}
