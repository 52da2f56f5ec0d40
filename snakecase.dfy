/**
 * `ToSnakeCase`: two regular-expression rewrites followed by lower-casing.
 *   pass 1, `(.)([A-Z][a-z]+)` -> `${1}_${2}`
 *   pass 2, `([a-z0-9])([A-Z])` -> `${1}_${2}`
 * Each rewrite replaces the leftmost match, then continues after it (Go's
 * ReplaceAllString); `.` matches any character except a newline and `[a-z]+`
 * is greedy.  Both passes are written as scans over positions of the input.
 */
module SnakeCase {
  import opened GoTypes

  /** Where the run of lower-case letters starting at `j` ends. */
  function LowerEnd(s: string, j: nat): (e: nat)
    requires j <= |s|
    ensures j <= e <= |s|
    decreases |s| - j
  {
    if j < |s| && IsLower(s[j]) then LowerEnd(s, j + 1) else j
  }

  /** The run is the longest one: what the greedy `[a-z]+` consumes. */
  lemma {:induction false} LowerEndIsLongest(s: string, j: nat)
    requires j <= |s|
    ensures forall k | j <= k < LowerEnd(s, j) :: IsLower(s[k])
    ensures LowerEnd(s, j) < |s| ==> !IsLower(s[LowerEnd(s, j)])
    decreases |s| - j
  {
    if j < |s| && IsLower(s[j]) {
      LowerEndIsLongest(s, j + 1);
    }
  }

  /** Whether `(.)([A-Z][a-z]+)` matches at position `i` of `s`. */
  predicate FirstCapAt(s: string, i: nat) {
    i + 2 < |s| && s[i] != '\n' && IsUpper(s[i + 1]) && IsLower(s[i + 2])
  }

  /** Pass 1 on the part of `s` from position `i` on. */
  function FirstCapFrom(s: string, i: nat): string
    requires i <= |s|
    decreases |s| - i
  {
    if i == |s| then []
    else if FirstCapAt(s, i) then
      var end := LowerEnd(s, i + 2);
      [s[i], '_'] + s[i + 1..end] + FirstCapFrom(s, end)
    else [s[i]] + FirstCapFrom(s, i + 1)
  }

  function FirstCapPass(s: string): string {
    FirstCapFrom(s, 0)
  }

  /** Whether `([a-z0-9])([A-Z])` matches at position `i` of `s`. */
  predicate AllCapAt(s: string, i: nat) {
    i + 1 < |s| && (IsLower(s[i]) || IsDigit(s[i])) && IsUpper(s[i + 1])
  }

  /** Pass 2 on the part of `s` from position `i` on. */
  function AllCapFrom(s: string, i: nat): string
    requires i <= |s|
    decreases |s| - i
  {
    if i == |s| then []
    else if AllCapAt(s, i) then [s[i], '_', s[i + 1]] + AllCapFrom(s, i + 2)
    else [s[i]] + AllCapFrom(s, i + 1)
  }

  function AllCapPass(s: string): string {
    AllCapFrom(s, 0)
  }

  function LowerChar(c: char): char {
    if IsUpper(c) then (c as int - 'A' as int + 'a' as int) as char else c
  }

  /** `strings.ToLower`, on ASCII letters. */
  function ToLower(s: string): (r: string)
    ensures |r| == |s|
    ensures forall i | 0 <= i < |r| :: r[i] == LowerChar(s[i])
  {
    if s == [] then [] else [LowerChar(s[0])] + ToLower(s[1..])
  }

  predicate NoUpper(s: string) {
    forall i | 0 <= i < |s| :: !IsUpper(s[i])
  }

  function ToSnakeCase(str: string): (r: string)
    ensures NoUpper(r)
  {
    ToLower(AllCapPass(FirstCapPass(str)))
  }

  /** `t` is `s` with some underscores inserted. */
  ghost predicate UnderscoresInserted(t: string, s: string)
    decreases |t|
  {
    if t == [] then s == []
    else
      || (s != [] && t[0] == s[0] && UnderscoresInserted(t[1..], s[1..]))
      || (t[0] == '_' && UnderscoresInserted(t[1..], s))
  }

  // ---------------------------------------------------------------------
  // Properties

  lemma {:induction false} InsertedTrans(a: string, b: string, c: string)
    requires UnderscoresInserted(a, b) && UnderscoresInserted(b, c)
    ensures UnderscoresInserted(a, c)
    decreases |a| + |b|
  {
    if a != [] {
      if b != [] && a[0] == b[0] && UnderscoresInserted(a[1..], b[1..]) {
        if c != [] && b[0] == c[0] && UnderscoresInserted(b[1..], c[1..]) {
          InsertedTrans(a[1..], b[1..], c[1..]);
        } else {
          InsertedTrans(a[1..], b[1..], c);
        }
      } else {
        InsertedTrans(a[1..], b, c);
      }
    }
  }

  lemma {:induction false} InsertedPrefix(p: string, t: string, s: string)
    requires UnderscoresInserted(t, s)
    ensures UnderscoresInserted(p + t, p + s)
  {
    if p == [] {
      assert p + t == t && p + s == s;
    } else {
      InsertedPrefix(p[1..], t, s);
      assert (p + t)[1..] == p[1..] + t;
      assert (p + s)[1..] == p[1..] + s;
    }
  }

  lemma {:induction false} InsertedLower(t: string, s: string)
    requires UnderscoresInserted(t, s)
    ensures UnderscoresInserted(ToLower(t), ToLower(s))
    decreases |t|
  {
    if t != [] {
      if s != [] && t[0] == s[0] && UnderscoresInserted(t[1..], s[1..]) {
        InsertedLower(t[1..], s[1..]);
        assert ToLower(t)[1..] == ToLower(t[1..]);
        assert ToLower(s)[1..] == ToLower(s[1..]);
      } else {
        InsertedLower(t[1..], s);
        assert ToLower(t)[1..] == ToLower(t[1..]);
      }
    }
  }

  lemma InsertedCons(c: char, t: string, s: string)
    requires UnderscoresInserted(t, s)
    ensures UnderscoresInserted([c] + t, [c] + s)
  {
    assert ([c] + t)[1..] == t;
    assert ([c] + s)[1..] == s;
  }

  lemma InsertedAfter(c: char, t: string, s: string)
    requires UnderscoresInserted(t, s)
    ensures UnderscoresInserted([c, '_'] + t, [c] + s)
  {
    assert ([c, '_'] + t)[1..] == ['_'] + t;
    assert (['_'] + t)[1..] == t;
    assert ([c] + s)[1..] == s;
  }

  /** A pass-1 match rewritten as character, underscore, word, followed by a rewritten rest. */
  lemma InsertedAtFirstCap(s: string, i: nat, end: nat, rest: string)
    requires i < end <= |s| && UnderscoresInserted(rest, s[end..])
    ensures UnderscoresInserted([s[i], '_'] + s[i + 1..end] + rest, s[i..])
  {
    InsertedPrefix(s[i + 1..end], rest, s[end..]);
    assert s[i + 1..end] + s[end..] == s[i + 1..];
    InsertedAfter(s[i], s[i + 1..end] + rest, s[i + 1..]);
    assert [s[i]] + s[i + 1..] == s[i..];
    assert [s[i], '_'] + s[i + 1..end] + rest == [s[i], '_'] + (s[i + 1..end] + rest);
  }

  /** A character copied in front of a rewritten rest. */
  lemma InsertedAtCopy(s: string, i: nat, rest: string)
    requires i < |s| && UnderscoresInserted(rest, s[i + 1..])
    ensures UnderscoresInserted([s[i]] + rest, s[i..])
  {
    InsertedCons(s[i], rest, s[i + 1..]);
    assert [s[i]] + s[i + 1..] == s[i..];
  }

  /** Pass 1 only inserts underscores. */
  lemma {:induction false} FirstCapInserts(s: string, i: nat)
    requires i <= |s|
    ensures UnderscoresInserted(FirstCapFrom(s, i), s[i..])
    decreases |s| - i
  {
    if i == |s| {
      assert s[i..] == [];
    } else if FirstCapAt(s, i) {
      var end := LowerEnd(s, i + 2);
      FirstCapInserts(s, end);
      InsertedAtFirstCap(s, i, end, FirstCapFrom(s, end));
    } else {
      FirstCapInserts(s, i + 1);
      InsertedAtCopy(s, i, FirstCapFrom(s, i + 1));
    }
  }

  /** Pass 2 only inserts underscores. */
  lemma {:induction false} AllCapInserts(s: string, i: nat)
    requires i <= |s|
    ensures UnderscoresInserted(AllCapFrom(s, i), s[i..])
    decreases |s| - i
  {
    if i == |s| {
      assert s[i..] == [];
    } else if AllCapAt(s, i) {
      var rest := AllCapFrom(s, i + 2);
      AllCapInserts(s, i + 2);
      InsertedAtCopy(s, i + 1, rest);
      InsertedAfter(s[i], [s[i + 1]] + rest, s[i + 1..]);
      assert [s[i]] + s[i + 1..] == s[i..];
      assert [s[i], '_', s[i + 1]] + rest == [s[i], '_'] + ([s[i + 1]] + rest);
    } else {
      AllCapInserts(s, i + 1);
      InsertedAtCopy(s, i, AllCapFrom(s, i + 1));
    }
  }

  /**
   * The accessor is the lower-cased name with underscores inserted, and
   * contains no upper-case letter.
   */
  lemma SnakeCaseInsertsUnderscores(str: string)
    ensures UnderscoresInserted(ToSnakeCase(str), ToLower(str))
    ensures NoUpper(ToSnakeCase(str))
  {
    var p1 := FirstCapPass(str);
    FirstCapInserts(str, 0);
    AllCapInserts(p1, 0);
    assert str[0..] == str && p1[0..] == p1;
    InsertedTrans(AllCapPass(p1), p1, str);
    InsertedLower(AllCapPass(p1), str);
  }

  lemma {:induction false} FirstCapNoUpper(s: string, i: nat)
    requires i <= |s| && NoUpper(s)
    ensures FirstCapFrom(s, i) == s[i..]
    decreases |s| - i
  {
    if i < |s| {
      FirstCapNoUpper(s, i + 1);
      assert [s[i]] + s[i + 1..] == s[i..];
    } else {
      assert s[i..] == [];
    }
  }

  lemma {:induction false} AllCapNoUpper(s: string, i: nat)
    requires i <= |s| && NoUpper(s)
    ensures AllCapFrom(s, i) == s[i..]
    decreases |s| - i
  {
    if i < |s| {
      AllCapNoUpper(s, i + 1);
      assert [s[i]] + s[i + 1..] == s[i..];
    } else {
      assert s[i..] == [];
    }
  }

  /** Converting an accessor again changes nothing. */
  lemma SnakeCaseIdempotent(str: string)
    ensures ToSnakeCase(ToSnakeCase(str)) == ToSnakeCase(str)
  {
    var s := ToSnakeCase(str);
    FirstCapNoUpper(s, 0);
    AllCapNoUpper(s, 0);
    assert s[0..] == s;
    assert ToLower(s) == s;
  }

  // ---------------------------------------------------------------------
  // Word boundaries

  /** A capitalised word: one upper-case letter, then one or more lower-case ones. */
  predicate Word(w: string) {
    |w| >= 2 && IsUpper(w[0]) && forall i | 1 <= i < |w| :: IsLower(w[i])
  }

  lemma {:induction false} LowerEndAll(s: string, j: nat)
    requires j <= |s| && forall k | j <= k < |s| :: IsLower(s[k])
    ensures LowerEnd(s, j) == |s|
    decreases |s| - j
  {
    if j < |s| {
      LowerEndAll(s, j + 1);
    }
  }

  /** Pass 1 copies a stretch in which no match starts. */
  lemma {:induction false} FirstCapSkip(s: string, i: nat, n: nat)
    requires i <= n <= |s| && forall k | i <= k < n :: !FirstCapAt(s, k)
    ensures FirstCapFrom(s, i) == s[i..n] + FirstCapFrom(s, n)
    decreases n - i
  {
    if i < n {
      FirstCapSkip(s, i + 1, n);
      assert s[i..n] == [s[i]] + s[i + 1..n];
    } else {
      assert s[i..n] == [];
    }
  }

  /** Pass 2 leaves alone a stretch in which no match starts. */
  lemma {:induction false} AllCapNone(s: string, i: nat)
    requires i <= |s| && forall k | i <= k < |s| :: !AllCapAt(s, k)
    ensures AllCapFrom(s, i) == s[i..]
    decreases |s| - i
  {
    if i < |s| {
      AllCapNone(s, i + 1);
      assert [s[i]] + s[i + 1..] == s[i..];
    } else {
      assert s[i..] == [];
    }
  }

  /**
   * Pass 1 on a prefix without matches, one more character and a whole
   * word: the only match is at that character, which the word follows
   * after an underscore.
   */
  lemma FirstCapBeforeWord(p: string, c: char, w: string)
    requires c != '\n' && Word(w)
    requires forall k | 0 <= k < |p| :: !FirstCapAt(p + [c] + w, k)
    ensures FirstCapPass(p + [c] + w) == p + [c, '_'] + w
  {
    var s, n := p + [c] + w, |p|;
    FirstCapSkip(s, 0, n);
    assert FirstCapAt(s, n);
    LowerEndAll(s, n + 2);
    assert s[n + 1..|s|] == w;
    assert s[0..n] == p;
    assert FirstCapFrom(s, n) == [c, '_'] + w + [];
    assert p + ([c, '_'] + w + []) == p + [c, '_'] + w;
  }

  lemma ToLowerAppend(a: string, b: string)
    ensures ToLower(a + b) == ToLower(a) + ToLower(b)
  {
    var l, r := ToLower(a + b), ToLower(a) + ToLower(b);
    forall i | 0 <= i < |l| ensures l[i] == r[i] {
      if i < |a| {
        assert (a + b)[i] == a[i];
      } else {
        assert (a + b)[i] == b[i - |a|];
      }
    }
  }

  /** A single capitalised word is just lower-cased: "Command" gives "command". */
  lemma SnakeCaseWord(w: string)
    requires Word(w)
    ensures ToSnakeCase(w) == ToLower(w)
  {
    FirstCapSkip(w, 0, |w|);
    assert w[0..|w|] == w && FirstCapFrom(w, |w|) == [];
    assert FirstCapPass(w) == w + [] == w;
    AllCapNone(w, 0);
    assert w[0..] == w;
  }

  /** Pass 2 finds nothing in two words joined by an underscore. */
  lemma TwoWordsAllCap(a: string, b: string)
    requires Word(a) && Word(b)
    ensures AllCapPass(a + "_" + b) == a + "_" + b
  {
    var s := a + "_" + b;
    forall k | 0 <= k < |s| ensures !AllCapAt(s, k) {
      if k + 1 < |a| {
        assert s[k + 1] == a[k + 1];
      } else if k + 1 > |a| && k + 1 < |s| {
        assert s[k + 1] == b[k - |a|];
        assert s[k] == (if k == |a| then '_' else b[k - |a| - 1]);
      }
    }
    AllCapNone(s, 0);
    assert s[0..] == s;
  }

  /** Two capitalised words are joined by one underscore: "GalaxyCommand" gives "galaxy_command". */
  lemma SnakeCaseTwoWords(a: string, b: string)
    requires Word(a) && Word(b)
    ensures ToSnakeCase(a + b) == ToLower(a) + "_" + ToLower(b)
  {
    var n := |a| - 1;
    var p := a[..n];
    assert a == p + [a[n]];
    forall k | 0 <= k < |p| ensures !FirstCapAt(p + [a[n]] + b, k) {
      assert (p + [a[n]] + b)[k + 1] == a[k + 1];
    }
    FirstCapBeforeWord(p, a[n], b);
    assert p + [a[n], '_'] + b == a + "_" + b;
    TwoWordsAllCap(a, b);
    ToLowerAppend(a + "_", b);
    ToLowerAppend(a, "_");
  }

  /** Pass 2 finds nothing in a run of capitals, an underscore and a word. */
  lemma AcronymAllCap(caps: string, w: string)
    requires |caps| >= 1 && (forall i | 0 <= i < |caps| :: IsUpper(caps[i])) && Word(w)
    ensures AllCapPass(caps + "_" + w) == caps + "_" + w
  {
    var s := caps + "_" + w;
    forall k | 0 <= k < |s| ensures !AllCapAt(s, k) {
      if k < |caps| {
        assert s[k] == caps[k];
      } else if k > |caps| && k + 1 < |s| {
        assert s[k + 1] == w[k - |caps|];
      }
    }
    AllCapNone(s, 0);
    assert s[0..] == s;
  }

  /**
   * An all-capitals run followed by a word gets one underscore, before the
   * word only: "ABCDWord" gives "abcd_word".
   */
  lemma SnakeCaseAcronymWord(caps: string, w: string)
    requires |caps| >= 1 && (forall i | 0 <= i < |caps| :: IsUpper(caps[i])) && Word(w)
    ensures ToSnakeCase(caps + w) == ToLower(caps) + "_" + ToLower(w)
  {
    var n := |caps| - 1;
    var p := caps[..n];
    assert caps == p + [caps[n]];
    forall k | 0 <= k < |p| ensures !FirstCapAt(p + [caps[n]] + w, k) {
      assert (p + [caps[n]] + w)[k + 2] == if k + 2 < |caps| then caps[k + 2] else w[0];
    }
    FirstCapBeforeWord(p, caps[n], w);
    assert p + [caps[n], '_'] + w == caps + "_" + w;
    AcronymAllCap(caps, w);
    ToLowerAppend(caps + "_", w);
    ToLowerAppend(caps, "_");
  }

  /** The accessor of the `Command` field of the Ansible-local provisioner. */
  lemma CommandExample(name: string)
    requires name == "Command"
    ensures ToSnakeCase(name) == "command"
  {
    assert Word(name);
    SnakeCaseWord(name);
    assert ToLower(name) == "command";
  }

  /** The accessor of the `GalaxyCommand` field of the Ansible-local provisioner. */
  lemma GalaxyCommandExample(a: string, b: string)
    requires a == "Galaxy" && b == "Command"
    ensures ToSnakeCase(a + b) == "galaxy_command"
  {
    assert Word(a) && Word(b);
    SnakeCaseTwoWords(a, b);
    assert ToLower(a) == "galaxy";
    assert ToLower(b) == "command";
  }

  /** An acronym is not split letter by letter: "ABCDWord" becomes "abcd_word". */
  lemma AcronymExample(caps: string, w: string)
    requires caps == "ABCD" && w == "Word"
    ensures ToSnakeCase(caps + w) == "abcd_word"
  {
    SnakeCaseAcronymWord(caps, w);
    assert ToLower(caps) == "abcd";
    assert ToLower(w) == "word";
  }
}
