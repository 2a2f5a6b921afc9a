/** Text helpers shared by the parsers: ASCII case folding, the two forms
    of `isStringEqualNoCase`, and whitespace tokenising as done by
    `std::istringstream >> std::string`.

    `isStringEqualNoCase` lives in parserHelpers.hpp, which is not part of
    this model. It is modelled here under the assumption that it folds
    case with `tolower` in the "C" locale (only A-Z change), that the
    two-argument form demands equal lengths, and that the counted form
    `isStringEqualNoCase(s, kw, n)` holds exactly when `s` has at least
    `n` characters and its first `n` match those of `kw`. */
module ParserHelpers {

  function ToLower(c: char): char {
    if 'A' <= c <= 'Z' then (c as int + 32) as char else c
  }

  function LowerString(s: string): (r: string)
    ensures |r| == |s|
  {
    seq(|s|, i requires 0 <= i < |s| => ToLower(s[i]))
  }

  /** `isStringEqualNoCase(a, b)`: case-insensitive equality. */
  predicate EqualNoCase(a: string, b: string) {
    |a| == |b| && forall i | 0 <= i < |a| :: ToLower(a[i]) == ToLower(b[i])
  }

  /** `isStringEqualNoCase(s, kw, n)`: the first `n` characters agree. */
  predicate PrefixEqualNoCase(s: string, kw: string, n: nat) {
    n <= |s| && n <= |kw| && EqualNoCase(s[..n], kw[..n])
  }

  /** Case-insensitive equality is equality after lower-casing. */
  lemma EqualNoCaseIffLowerEqual(a: string, b: string)
    ensures EqualNoCase(a, b) <==> LowerString(a) == LowerString(b)
  {
    if LowerString(a) == LowerString(b) {
      forall i | 0 <= i < |a|
        ensures ToLower(a[i]) == ToLower(b[i])
      {
        assert LowerString(a)[i] == LowerString(b)[i];
      }
    }
  }

  /** Case-insensitive equality is an equivalence relation. */
  lemma EqualNoCaseIsEquivalence(a: string, b: string, c: string)
    ensures EqualNoCase(a, a)
    ensures EqualNoCase(a, b) ==> EqualNoCase(b, a)
    ensures EqualNoCase(a, b) && EqualNoCase(b, c) ==> EqualNoCase(a, c)
  {
  }

  /** The characters `isspace` accepts in the "C" locale. */
  predicate IsSpace(c: char) {
    c == ' ' || c == '\t' || c == '\n' || c == '\r' || c as int == 11 || c as int == 12
  }

  /** A token as `operator>>` extracts it: non-empty, no white space. */
  predicate IsWord(w: string) {
    w != [] && forall i | 0 <= i < |w| :: !IsSpace(w[i])
  }

  /** End of the white-space-free run of `s` that starts before `i`. */
  function WordEnd(s: string, i: nat): (n: nat)
    requires i <= |s|
    ensures i <= n <= |s|
    ensures n == |s| || IsSpace(s[n])
    ensures forall j | i <= j < n :: !IsSpace(s[j])
    decreases |s| - i
  {
    if i == |s| || IsSpace(s[i]) then i else WordEnd(s, i + 1)
  }

  /** The words `while (iss >> word)` extracts from `s`, in order. */
  function Tokens(s: string): (ws: seq<string>)
    ensures forall k | 0 <= k < |ws| :: IsWord(ws[k])
    decreases |s|
  {
    if s == [] then []
    else if IsSpace(s[0]) then Tokens(s[1..])
    else
      var n := WordEnd(s, 1);
      [s[..n]] + Tokens(s[n..])
  }

  /** Words joined by single spaces, as the relay parser's flush does. */
  function JoinSpace(ws: seq<string>): string {
    if |ws| == 0 then ""
    else if |ws| == 1 then ws[0]
    else ws[0] + " " + JoinSpace(ws[1..])
  }

  function Flatten(wss: seq<seq<string>>): seq<string> {
    if wss == [] then [] else wss[0] + Flatten(wss[1..])
  }

  lemma FlattenAppend(a: seq<seq<string>>, b: seq<seq<string>>)
    ensures Flatten(a + b) == Flatten(a) + Flatten(b)
  {
    if a == [] {
      assert a + b == b;
    } else {
      assert (a + b)[1..] == a[1..] + b;
      FlattenAppend(a[1..], b);
    }
  }

  lemma WordEndAppend(s: string, t: string, i: nat)
    requires i <= |s|
    ensures WordEnd(s, i) < |s| ==> WordEnd(s + t, i) == WordEnd(s, i)
    ensures WordEnd(s, i) == |s| && t != [] && IsSpace(t[0]) ==> WordEnd(s + t, i) == |s|
    decreases |s| - i
  {
    if i < |s| && !IsSpace(s[i]) {
      WordEndAppend(s, t, i + 1);
    }
  }

  /** A white-space character separates the tokens on either side of it. */
  lemma {:induction false} TokensSplit(a: string, c: char, b: string)
    requires IsSpace(c)
    ensures Tokens(a + [c] + b) == Tokens(a) + Tokens(b)
    decreases |a|
  {
    var s := a + [c] + b;
    if a == [] {
      assert s[1..] == b;
    } else if IsSpace(a[0]) {
      assert s[1..] == a[1..] + [c] + b;
      TokensSplit(a[1..], c, b);
    } else {
      var k := WordEnd(a, 1);
      WordEndAppend(a, [c] + b, 1);
      assert s == a + ([c] + b);
      if k < |a| {
        assert s[..k] == a[..k];
        assert s[k..] == a[k..] + [c] + b;
        TokensSplit(a[k..], c, b);
      } else {
        assert s[..k] == a;
        assert s[k..] == [c] + b;
        assert ([c] + b)[1..] == b;
        assert Tokens([c] + b) == Tokens(b);
        assert a[..k] == a;
        assert a[k..] == [];
        assert Tokens(a) == [a];
      }
    }
  }

  lemma TokensOfWord(w: string)
    requires IsWord(w)
    ensures Tokens(w) == [w]
  {
    var n := WordEnd(w, 1);
    assert n == |w|;
    assert w[..n] == w;
    assert w[n..] == [];
  }

  /** Tokenising space-joined pieces tokenises each piece in turn. */
  lemma {:induction false} TokensOfJoin(pieces: seq<string>)
    ensures Tokens(JoinSpace(pieces)) == Flatten(seq(|pieces|, k requires 0 <= k < |pieces| => Tokens(pieces[k])))
    decreases |pieces|
  {
    var each := seq(|pieces|, k requires 0 <= k < |pieces| => Tokens(pieces[k]));
    if |pieces| == 0 {
    } else if |pieces| == 1 {
      assert Flatten(each) == each[0] + Flatten(each[1..]);
    } else {
      var rest := pieces[1..];
      TokensSplit(pieces[0], ' ', JoinSpace(rest));
      TokensOfJoin(rest);
      assert each[1..] == seq(|rest|, k requires 0 <= k < |rest| => Tokens(rest[k]));
    }
  }

  /** Joining words by single spaces and tokenising gives the words back. */
  lemma {:induction false} TokensOfJoinedWords(ws: seq<string>)
    requires forall k | 0 <= k < |ws| :: IsWord(ws[k])
    ensures Tokens(JoinSpace(ws)) == ws
    decreases |ws|
  {
    if |ws| == 1 {
      TokensOfWord(ws[0]);
    } else if |ws| > 1 {
      TokensSplit(ws[0], ' ', JoinSpace(ws[1..]));
      TokensOfWord(ws[0]);
      TokensOfJoinedWords(ws[1..]);
    }
  }

  /** Concatenation regrouped. */
  lemma AppendAssoc(x: string, y: string, z: string)
    ensures x + (y + z) == (x + y) + z
  {
  }

  /** A string cut at index `k`, and its suffix from `k` split after its
      first character. */
  lemma SplitAt(s: string, k: nat)
    requires k < |s|
    ensures s == s[..k] + s[k..]
    ensures s[k..] == [s[k]] + s[k + 1..]
  {
  }

  /** Index of the first `c` in `s`, if any. */
  function IndexOf(s: string, c: char): (r: int)
    ensures -1 <= r < |s|
    ensures r == -1 <==> c !in s
    ensures r >= 0 ==> s[r] == c && c !in s[..r]
  {
    if |s| == 0 then -1
    else if s[0] == c then 0
    else
      var k := IndexOf(s[1..], c);
      if k < 0 then -1
      else
        assert s[..k + 1] == [s[0]] + s[1..][..k];
        k + 1
  }

  /** Index of the last `c` in `s`, if any. */
  function LastIndexOf(s: string, c: char): (r: int)
    ensures -1 <= r < |s|
    ensures r == -1 <==> c !in s
    ensures r >= 0 ==> s[r] == c && c !in s[r + 1..]
  {
    if |s| == 0 then -1
    else if s[|s| - 1] == c then |s| - 1
    else
      var k := LastIndexOf(s[..|s| - 1], c);
      assert c !in s[..|s| - 1] ==> c !in s by {
        assert s == s[..|s| - 1] + [s[|s| - 1]];
      }
      k
  }

  /** The last `c` is the one with no `c` after it. */
  lemma LastIndexOfIsUnique(s: string, c: char, k: nat)
    requires k < |s| && s[k] == c && c !in s[k + 1..]
    ensures LastIndexOf(s, c) == k
  {
    var r := LastIndexOf(s, c);
    assert c in s by {
      assert s[k] == c;
    }
    forall i | k < i < |s|
      ensures s[i] != c
    {
      assert s[i] == s[k + 1..][i - k - 1];
    }
    forall i | r < i < |s|
      ensures s[i] != c
    {
      assert s[i] == s[r + 1..][i - r - 1];
    }
  }

  /** The first `c` is the one with no `c` before it. */
  lemma IndexOfIsFirst(s: string, c: char, k: nat)
    requires k < |s| && s[k] == c && c !in s[..k]
    ensures IndexOf(s, c) == k
  {
    var r := IndexOf(s, c);
    assert c in s by {
      assert s[k] == c;
    }
    forall i | 0 <= i < k
      ensures s[i] != c
    {
      assert s[i] == s[..k][i];
    }
    forall i | 0 <= i < r
      ensures s[i] != c
    {
      assert s[i] == s[..r][i];
    }
  }
}
