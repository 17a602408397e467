/** The first lexical pass of `scripts/security-network-source-audit.py`: blanking everything that is
    not C code without moving any character. */
module Masking {
  import opened Wrappers

  // ---- the lexer, as a specification ----

  datatype Kind = Code | LineComment | BlockComment | Literal

  predicate Quote(c: char) {
    c == '\"' || c == '\''
  }

  predicate Pair(s: string, i: nat, a: char, b: char) {
    i + 1 < |s| && s[i] == a && s[i + 1] == b
  }

  /** Something other than code begins here, if this is code at all. */
  predicate Opener(s: string, i: nat)
    requires i < |s|
  {
    Pair(s, i, '/', '/') || Pair(s, i, '/', '*') || Quote(s[i])
  }

  /** The next newline. */
  function LineEnd(s: string, i: nat): (e: nat)
    requires i <= |s|
    ensures i <= e <= |s|
    decreases |s| - i
  {
    if i == |s| || s[i] == '\n' then i else LineEnd(s, i + 1)
  }

  /** Just after the next closing mark. */
  function BlockEnd(s: string, i: nat): (e: nat)
    requires i <= |s|
    ensures i <= e <= |s|
    decreases |s| - i
  {
    if i == |s| then i else if Pair(s, i, '*', '/') then i + 2 else BlockEnd(s, i + 1)
  }

  /** Just after the next quote that no backslash escapes. */
  function LiteralEnd(s: string, i: nat, quote: char): (e: nat)
    requires i <= |s|
    ensures i <= e <= |s|
    decreases |s| - i
  {
    if i == |s| then i
    else if s[i] == '\\' && i + 1 < |s| then LiteralEnd(s, i + 2, quote)
    else if s[i] == quote then i + 1
    else LiteralEnd(s, i + 1, quote)
  }

  function KindAt(s: string, i: nat): Kind
    requires i < |s|
  {
    if Pair(s, i, '/', '/') then LineComment
    else if Pair(s, i, '/', '*') then BlockComment
    else if Quote(s[i]) then Literal
    else Code
  }

  function TokenEnd(s: string, i: nat): (e: nat)
    requires i < |s|
    ensures i < e <= |s|
  {
    match KindAt(s, i)
    case LineComment => LineEnd(s, i + 2)
    case BlockComment => BlockEnd(s, i + 2)
    case Literal => LiteralEnd(s, i + 1, s[i])
    case Code => i + 1
  }

  function Repeat(k: Kind, n: nat): (r: seq<Kind>)
    ensures |r| == n && forall i :: 0 <= i < n ==> r[i] == k
  {
    seq(n, _ => k)
  }

  /** The kind of every character from `i` on, given that code resumes at `i`. */
  function Kinds(s: string, i: nat): (r: seq<Kind>)
    requires i <= |s|
    ensures |r| == |s| - i
    decreases |s| - i
  {
    if i == |s| then [] else Repeat(KindAt(s, i), TokenEnd(s, i) - i) + Kinds(s, TokenEnd(s, i))
  }

  lemma TokenKinds(s: string, i: nat)
    requires i < |s|
    ensures Kinds(s, i) == Repeat(KindAt(s, i), TokenEnd(s, i) - i) + Kinds(s, TokenEnd(s, i))
  {
  }

  lemma CodeKinds(s: string, i: nat)
    requires i < |s| && !Opener(s, i)
    ensures Kinds(s, i) == [Code] + Kinds(s, i + 1)
  {
    TokenKinds(s, i);
    assert KindAt(s, i) == Code && TokenEnd(s, i) == i + 1;
    hide Kinds, KindAt, TokenEnd;
    assert Repeat(Code, 1) == [Code];
  }

  /** What a character of some kind becomes. */
  function Shown(c: char, k: Kind): char {
    if k == Code || c == '\n' then c else ' '
  }

  function Masked(s: string): (t: string)
    ensures |t| == |s|
    ensures forall i :: 0 <= i < |s| ==> (t[i] == '\n' <==> s[i] == '\n')
  {
    seq(|s|, i requires 0 <= i < |s| => Shown(s[i], Kinds(s, 0)[i]))
  }

  // ---- the tokens, told without scanning ----

  /** `/` and then `c`. */
  predicate Slash(s: string, a: nat, c: char) {
    a + 1 < |s| && s[a] == '/' && s[a + 1] == c
  }

  /** A block comment is closed at `k`. */
  predicate Closes(s: string, k: int) {
    0 <= k < |s| - 1 && s[k] == '*' && s[k + 1] == '/'
  }

  /** How many backslashes stand right before `k`, inside a literal that opens at `a`. */
  function Backslashes(s: string, a: nat, k: nat): nat
    requires k <= |s|
  {
    if k > a + 1 && s[k - 1] == '\\' then 1 + Backslashes(s, a, k - 1) else 0
  }

  /** The literal that opens at `a` is closed at `k`: the same quote, not escaped. */
  predicate Ends(s: string, a: nat, k: int) {
    0 <= a < k < |s| && s[k] == s[a] && Backslashes(s, a, k) % 2 == 0
  }

  /** The token from `a` up to `e`: a comment to the end of its line, or to the first closing mark
      behind its opening one; a literal to the first quote of its kind that is not escaped; or a single
      character of code. What is never closed goes on to the end of the text. */
  ghost predicate Token(s: string, a: nat, e: nat) {
    && a < e <= |s|
    && if Slash(s, a, '/') then
         a + 2 <= e && (e == |s| || s[e] == '\n') && forall k :: a + 2 <= k < e ==> s[k] != '\n'
       else if Slash(s, a, '*') then
         && (forall k :: a + 2 <= k < e - 2 ==> !Closes(s, k))
         && if a + 4 <= e && Closes(s, e - 2) then true else e == |s| && a + 2 <= e
       else if s[a] == '\"' || s[a] == '\'' then
         && (forall k :: a < k < e - 1 ==> !Ends(s, a, k))
         && (Ends(s, a, e - 1) || e == |s|)
       else e == a + 1
  }

  lemma {:induction false} LineIs(s: string, i: nat)
    requires i <= |s|
    ensures var e := LineEnd(s, i);
            (e == |s| || s[e] == '\n') && forall k :: i <= k < e ==> s[k] != '\n'
    decreases |s| - i
  {
    if i < |s| && s[i] != '\n' { LineIs(s, i + 1); }
  }

  lemma {:induction false} BlockIs(s: string, i: nat)
    requires i <= |s|
    ensures var e := BlockEnd(s, i);
            && (forall k :: i <= k < e - 2 ==> !Closes(s, k))
            && ((i + 2 <= e && Closes(s, e - 2)) || (e == |s| && forall k :: i <= k ==> !Closes(s, k)))
    decreases |s| - i
  {
    if i < |s| && !Pair(s, i, '*', '/') { BlockIs(s, i + 1); }
  }

  lemma {:induction false} LiteralIs(s: string, a: nat, i: nat)
    requires a < i <= |s| && Quote(s[a]) && Backslashes(s, a, i) % 2 == 0
    requires forall k :: a < k < i ==> !Ends(s, a, k)
    ensures var e := LiteralEnd(s, i, s[a]);
            && (forall k :: a < k < e - 1 ==> !Ends(s, a, k))
            && (Ends(s, a, e - 1) || e == |s|)
    decreases |s| - i
  {
    if i < |s| {
      if s[i] == '\\' && i + 1 < |s| {
        assert Backslashes(s, a, i + 1) == 1 + Backslashes(s, a, i);
        LiteralIs(s, a, i + 2);
      } else if s[i] != s[a] {
        if i + 1 < |s| { LiteralIs(s, a, i + 1); }
      }
    }
  }

  lemma TokenIs(s: string, a: nat)
    requires a < |s|
    ensures Token(s, a, TokenEnd(s, a))
  {
    if Pair(s, a, '/', '/') {
      LineIs(s, a + 2);
    } else if Pair(s, a, '/', '*') {
      BlockIs(s, a + 2);
    } else if Quote(s[a]) {
      LiteralIs(s, a, a + 1);
    }
    hide LineEnd, BlockEnd, LiteralEnd, Backslashes;
  }

  /** A token has one end. */
  lemma TokenUnique(s: string, a: nat, e: nat, f: nat)
    requires Token(s, a, e) && Token(s, a, f)
    ensures e == f
  {
    TokenNotLonger(s, a, e, f);
    TokenNotLonger(s, a, f, e);
  }

  lemma TokenNotLonger(s: string, a: nat, e: nat, f: nat)
    requires Token(s, a, e) && Token(s, a, f)
    ensures e >= f
  {
    if Slash(s, a, '/') {
      assert e == |s| || s[e] == '\n';
    } else if Slash(s, a, '*') {
      assert e == |s| || Closes(s, e - 2);
    } else if Quote(s[a]) {
      assert e == |s| || Ends(s, a, e - 1);
    }
    hide Closes, Ends;
  }

  /** `cuts` are where the tokens of the text from `i` on begin, and its end. */
  ghost predicate Cut(s: string, i: nat, cuts: seq<nat>) {
    && cuts != [] && cuts[0] == i && cuts[|cuts| - 1] == |s|
    && forall k :: 0 <= k < |cuts| - 1 ==> Token(s, cuts[k], cuts[k + 1])
  }

  /** Position `p` lies in the `k`-th token. */
  predicate InToken(cuts: seq<nat>, k: int, p: int) {
    0 <= k < |cuts| - 1 && cuts[k] <= p < cuts[k + 1]
  }

  /** A character is code exactly when its token does not open a comment or a literal. */
  ghost predicate KindsFit(s: string, i: nat, cuts: seq<nat>)
    requires i <= |s|
  {
    forall k, p :: InToken(cuts, k, p) ==>
      i <= cuts[k] <= p < |s| && (Kinds(s, i)[p - i] == Code <==> !Opener(s, cuts[k]))
  }

  lemma {:induction false} Tokens(s: string, i: nat) returns (cuts: seq<nat>)
    requires i <= |s|
    ensures Cut(s, i, cuts) && KindsFit(s, i, cuts)
    decreases |s| - i
  {
    if i == |s| {
      cuts := [i];
    } else {
      var e := TokenEnd(s, i);
      TokenIs(s, i);
      var rest := Tokens(s, e);
      cuts := [i] + rest;
      FirstToken(s, i, rest);
    }
  }

  lemma FirstToken(s: string, i: nat, rest: seq<nat>)
    requires i < |s| && Cut(s, TokenEnd(s, i), rest) && KindsFit(s, TokenEnd(s, i), rest)
    requires Token(s, i, TokenEnd(s, i))
    ensures Cut(s, i, [i] + rest) && KindsFit(s, i, [i] + rest)
  {
    var e, cuts := TokenEnd(s, i), [i] + rest;
    TokenKinds(s, i);
    assert KindAt(s, i) == Code <==> !Opener(s, i);
    hide Kinds, Token, TokenEnd, KindAt, Opener;
    forall k | 0 <= k < |cuts| - 1 ensures Token(s, cuts[k], cuts[k + 1]) {
      if k > 0 { assert Token(s, rest[k - 1], rest[k]); }
    }
    forall k, p | InToken(cuts, k, p)
      ensures i <= cuts[k] <= p < |s| && (Kinds(s, i)[p - i] == Code <==> !Opener(s, cuts[k]))
    {
      if k > 0 {
        assert InToken(rest, k - 1, p);
        assert Kinds(s, i)[p - i] == Kinds(s, e)[p - e];
      }
    }
  }

  /** The text is cut into tokens, from left to right; what lies in a comment or a literal becomes a
      space, and everything else, with every newline, stays. */
  lemma MaskMeans(s: string) returns (cuts: seq<nat>)
    ensures Cut(s, 0, cuts)
    ensures forall k, p :: InToken(cuts, k, p) ==>
              && cuts[k] <= p < |s|
              && var a := cuts[k];
                 var hidden := Slash(s, a, '/') || Slash(s, a, '*') || s[a] == '\"' || s[a] == '\'';
                 Masked(s)[p] == if hidden && s[p] != '\n' then ' ' else s[p]
  {
    cuts := Tokens(s, 0);
    hide Kinds, Token;
  }

  // ---- what masking leaves ----

  ghost predicate Clean(s: string) {
    forall i :: 0 <= i < |s| ==> !Opener(s, i)
  }

  lemma {:induction false} CodeNeverOpens(s: string, i: nat, k: nat)
    requires i <= k < |s| && Kinds(s, i)[k - i] == Code
    ensures !Opener(s, k)
    decreases |s| - i
  {
    TokenKinds(s, i);
    var e := TokenEnd(s, i);
    hide Kinds, LineEnd, BlockEnd, LiteralEnd;
    if k >= e {
      assert Kinds(s, i)[k - i] == Kinds(s, e)[k - e];
      CodeNeverOpens(s, e, k);
    }
  }

  /** Nothing a second pass would take for a comment or a literal is left. */
  lemma MaskedIsClean(s: string)
    ensures Clean(Masked(s))
  {
    var t := Masked(s);
    forall i | 0 <= i < |t| ensures !Opener(t, i) {
      assert t[i] == Shown(s[i], Kinds(s, 0)[i]);
      if i + 1 < |t| { assert t[i + 1] == Shown(s[i + 1], Kinds(s, 0)[i + 1]); }
      if Kinds(s, 0)[i] == Code { CodeNeverOpens(s, 0, i); }
    }
  }

  lemma {:induction false} CleanIsCode(s: string, i: nat, k: nat)
    requires Clean(s) && i <= k < |s|
    ensures Kinds(s, i)[k - i] == Code
    decreases |s| - i
  {
    CodeKinds(s, i);
    hide Kinds, Opener;
    if i < k {
      assert Kinds(s, i)[k - i] == Kinds(s, i + 1)[k - (i + 1)];
      CleanIsCode(s, i + 1, k);
    }
  }

  lemma FixedNow(s: string, i: nat)
    requires i < |s| && Shown(s[i], Kinds(s, i)[0]) == s[i]
    ensures !Opener(s, i)
  {
    TokenKinds(s, i);
    hide Kinds, TokenEnd;
    assert Kinds(s, i)[0] == KindAt(s, i);
  }

  lemma {:induction false} FixedNeverOpens(s: string, kinds: seq<Kind>, i: nat, k: nat)
    requires i <= k < |s| == |kinds| && kinds[i..] == Kinds(s, i)
    requires forall j :: 0 <= j < |s| ==> Shown(s[j], kinds[j]) == s[j]
    ensures !Opener(s, k)
    decreases |s| - i
  {
    assert Kinds(s, i)[0] == kinds[i];
    FixedNow(s, i);
    CodeKinds(s, i);
    hide *;
    if i < k {
      assert kinds[i + 1..] == kinds[i..][1..];
      FixedNeverOpens(s, kinds, i + 1, k);
    }
  }

  /** Masking leaves exactly those sources alone that hold no quote and no comment opener. */
  lemma FixedIffClean(s: string)
    ensures Masked(s) == s <==> Clean(s)
  {
    hide Kinds, Opener;
    if Masked(s) == s {
      var kinds := Kinds(s, 0);
      forall j | 0 <= j < |s| ensures Shown(s[j], kinds[j]) == s[j] {
        assert Masked(s)[j] == s[j];
      }
      assert kinds[0..] == kinds;
      forall k | 0 <= k < |s| ensures !Opener(s, k) { FixedNeverOpens(s, kinds, 0, k); }
    }
    if Clean(s) {
      forall k | 0 <= k < |s| ensures Masked(s)[k] == s[k] { CleanIsCode(s, 0, k); }
    }
  }

  lemma MaskingTwice(s: string)
    ensures Masked(Masked(s)) == Masked(s)
  {
    MaskedIsClean(s);
    FixedIffClean(Masked(s));
  }

  // ---- the masking loop ----

  /** Where the stretch the loop stands in ends. */
  ghost function StateEnd(s: string, i: nat, state: Kind, quote: char): (e: nat)
    requires i <= |s|
    ensures i <= e <= |s|
  {
    match state
    case Code => i
    case LineComment => LineEnd(s, i)
    case BlockComment => BlockEnd(s, i)
    case Literal => LiteralEnd(s, i, quote)
  }

  /** The kinds still to come when the loop stands at `i` in some state. */
  ghost function Rest(s: string, i: nat, state: Kind, quote: char): (r: seq<Kind>)
    requires i <= |s|
    ensures |r| == |s| - i
  {
    Repeat(state, StateEnd(s, i, state, quote) - i) + Kinds(s, StateEnd(s, i, state, quote))
  }

  /** What one round of the loop masks, and where it leaves the lexer. */
  function Step(s: string, i: nat, state: Kind, quote: char): (r: (nat, Kind, char))
    requires i < |s|
    ensures r.0 == 1 || (r.0 == 2 && i + 1 < |s|)
  {
    match state
    case Code =>
      if Pair(s, i, '/', '/') then (2, LineComment, quote)
      else if Pair(s, i, '/', '*') then (2, BlockComment, quote)
      else if Quote(s[i]) then (1, Literal, s[i])
      else (1, Code, quote)
    case LineComment => (1, if s[i] == '\n' then Code else LineComment, quote)
    case BlockComment => if Pair(s, i, '*', '/') then (2, Code, quote) else (1, BlockComment, quote)
    case Literal =>
      if s[i] == '\\' && i + 1 < |s| then (2, Literal, quote)
      else if s[i] == quote then (1, Code, quote)
      else (1, Literal, quote)
  }

  lemma DropRepeat(k: Kind, a: nat, n: nat, x: seq<Kind>)
    requires n <= a
    ensures (Repeat(k, a) + x)[n..] == Repeat(k, a - n) + x
    ensures forall j :: 0 <= j < n ==> (Repeat(k, a) + x)[j] == k
  {
  }

  /** From code, a token begins; its end is where the next state's stretch ends. */
  lemma StepFromCode(s: string, i: nat, quote: char)
    requires i < |s|
    ensures var (n, t, q) := Step(s, i, Code, quote);
            t == KindAt(s, i) && StateEnd(s, i + n, t, q) == TokenEnd(s, i)
  {
    hide LineEnd, BlockEnd, LiteralEnd;
  }

  /** Inside a comment or a literal, either the stretch goes on or code resumes right behind it. Only
      the newline that ends a line comment is left to the code. */
  lemma StepInside(s: string, i: nat, state: Kind, quote: char)
    requires i < |s| && state != Code
    ensures var (n, t, q) := Step(s, i, state, quote);
            var e := StateEnd(s, i, state, quote);
            || (t == state && q == quote && StateEnd(s, i + n, t, q) == e >= i + n)
            || (t == Code && e == i + n)
            || (t == Code && e == i && n == 1 && s[i] == '\n')
  {
  }

  /** A round masks a stretch of one kind and goes on with the rest of the kinds. */
  ghost predicate RoundIsRight(s: string, i: nat, state: Kind, quote: char)
    requires i < |s|
  {
    var (n, t, q) := Step(s, i, state, quote);
    && Rest(s, i, state, quote)[n..] == Rest(s, i + n, t, q)
    && forall k :: 0 <= k < n ==>
         Rest(s, i, state, quote)[k] == (if state == Code then t else state) || s[i + k] == '\n'
  }

  lemma RestOfCode(s: string, i: nat, quote: char)
    requires i <= |s|
    ensures StateEnd(s, i, Code, quote) == i && Rest(s, i, Code, quote) == Kinds(s, i)
  {
  }

  lemma RoundFromCode(s: string, i: nat, quote: char)
    requires i < |s|
    ensures RoundIsRight(s, i, Code, quote)
  {
    hide Kinds, KindAt, TokenEnd, StateEnd, Step, LineEnd, BlockEnd, LiteralEnd;
    var (n, t, q) := Step(s, i, Code, quote);
    StepFromCode(s, i, quote);
    TokenKinds(s, i);
    RestOfCode(s, i, quote);
    DropRepeat(t, TokenEnd(s, i) - i, n, Kinds(s, TokenEnd(s, i)));
  }

  lemma RestGoesOn(s: string, i: nat, n: nat, state: Kind, quote: char)
    requires i + n <= |s| && StateEnd(s, i + n, state, quote) == StateEnd(s, i, state, quote)
    ensures Rest(s, i, state, quote)[n..] == Rest(s, i + n, state, quote)
    ensures forall k :: 0 <= k < n ==> Rest(s, i, state, quote)[k] == state
  {
    hide Kinds, KindAt, TokenEnd, StateEnd, Step, LineEnd, BlockEnd, LiteralEnd;
    var e := StateEnd(s, i, state, quote);
    DropRepeat(state, e - i, n, Kinds(s, e));
  }

  lemma RestEnds(s: string, i: nat, n: nat, state: Kind, quote: char, q: char)
    requires i + n <= |s| && StateEnd(s, i, state, quote) == i + n
    ensures Rest(s, i, state, quote)[n..] == Rest(s, i + n, Code, q)
    ensures forall k :: 0 <= k < n ==> Rest(s, i, state, quote)[k] == state
  {
    hide Kinds, KindAt, TokenEnd, StateEnd, Step, LineEnd, BlockEnd, LiteralEnd;
    var e := i + n;
    RestOfCode(s, e, q);
    DropRepeat(state, n, n, Kinds(s, e));
    assert Repeat(state, 0) + Kinds(s, e) == Kinds(s, e);
  }

  /** The newline that ends a line comment. */
  lemma RestAtNewline(s: string, i: nat, state: Kind, quote: char, q: char)
    requires i < |s| && s[i] == '\n' && StateEnd(s, i, state, quote) == i
    ensures Rest(s, i, state, quote)[1..] == Rest(s, i + 1, Code, q)
  {
    assert !Opener(s, i);
    RestOfCode(s, i + 1, q);
    CodeKinds(s, i);
    hide Kinds, KindAt, TokenEnd, StateEnd, Step, LineEnd, BlockEnd, LiteralEnd;
  }

  lemma RoundInside(s: string, i: nat, state: Kind, quote: char)
    requires i < |s| && state != Code
    ensures RoundIsRight(s, i, state, quote)
  {
    hide Rest, Kinds, KindAt, TokenEnd, StateEnd, Step, LineEnd, BlockEnd, LiteralEnd;
    var (n, t, q) := Step(s, i, state, quote);
    StepInside(s, i, state, quote);
    if t == state {
      RestGoesOn(s, i, n, state, quote);
    } else if StateEnd(s, i, state, quote) == i + n {
      RestEnds(s, i, n, state, quote, q);
    } else {
      RestAtNewline(s, i, state, quote, q);
    }
  }

  /** One round of the loop. */
  method Round(chars: array<char>, source: string, at: nat, from: Kind, mark: char)
    returns (index: nat, state: Kind, quote: char)
    requires at < chars.Length == |source| && (from == Literal ==> Quote(mark))
    requires forall k :: at <= k < |source| ==> chars[k] == source[k]
    modifies chars
    ensures (index - at, state, quote) == Step(source, at, from, mark) && (state == Literal ==> Quote(quote))
    ensures forall k :: 0 <= k < chars.Length && !(at <= k < index) ==> chars[k] == old(chars[k])
    ensures forall k :: at <= k < index ==> chars[k] == Shown(source[k], if from == Code then state else from)
  {
    index, state, quote := at, from, mark;
    var current := chars[index];
    var following := if index + 1 < chars.Length then Some(chars[index + 1]) else None;
    if state == Code {
      if current == '/' && following == Some('/') {
        chars[index], chars[index + 1] := ' ', ' ';
        index, state := index + 2, LineComment;
      } else if current == '/' && following == Some('*') {
        chars[index], chars[index + 1] := ' ', ' ';
        index, state := index + 2, BlockComment;
      } else if current == '\"' || current == '\'' {
        quote := current;
        chars[index] := ' ';
        index, state := index + 1, Literal;
      } else {
        index := index + 1;
      }
    } else if state == LineComment {
      if current == '\n' { state := Code; } else { chars[index] := ' '; }
      index := index + 1;
    } else if state == BlockComment {
      if current == '*' && following == Some('/') {
        chars[index], chars[index + 1] := ' ', ' ';
        index, state := index + 2, Code;
      } else {
        if current != '\n' { chars[index] := ' '; }
        index := index + 1;
      }
    } else {
      if current == '\\' && following.Some? {
        chars[index] := ' ';
        if following != Some('\n') { chars[index + 1] := ' '; }
        index := index + 2;
      } else if current == quote {
        chars[index] := ' ';
        index, state := index + 1, Code;
      } else {
        if current != '\n' { chars[index] := ' '; }
        index := index + 1;
      }
    }
  }

  lemma RoundKeeps(s: string, kinds: seq<Kind>, at: nat, from: Kind, mark: char, i: nat, state: Kind, quote: char)
    requires at < i <= |s| == |kinds| && kinds[at..] == Rest(s, at, from, mark)
    requires (i - at, state, quote) == Step(s, at, from, mark)
    ensures kinds[i..] == Rest(s, i, state, quote)
    ensures forall k :: at <= k < i ==> kinds[k] == (if from == Code then state else from) || s[k] == '\n'
  {
    if from == Code { RoundFromCode(s, at, mark); } else { RoundInside(s, at, from, mark); }
    var rest := Rest(s, at, from, mark);
    hide Rest, Step;
    assert kinds[i..] == rest[i - at..];
    forall k | at <= k < i ensures kinds[k] == (if from == Code then state else from) || s[k] == '\n' {
      assert kinds[k] == rest[k - at] && s[k] == s[at + (k - at)];
    }
  }

  lemma ShownAlike(c: char, k: Kind, l: Kind)
    requires k == l || c == '\n'
    ensures Shown(c, k) == Shown(c, l)
  {
  }

  /** `_mask_non_code`: the loop keeps exactly what the lexer calls code, and every newline. */
  method MaskNonCode(source: string) returns (masked: string)
    ensures masked == Masked(source)
  {
    var chars := new char[|source|](i requires 0 <= i < |source| => source[i]);
    var index: nat, state, quote := 0, Code, ' ';
    ghost var kinds := Kinds(source, 0);
    while index < chars.Length
      invariant index <= |source| && (state == Literal ==> Quote(quote))
      invariant forall k :: index <= k < |source| ==> chars[k] == source[k]
      invariant forall k :: 0 <= k < index ==> chars[k] == Shown(source[k], kinds[k])
      invariant kinds[index..] == Rest(source, index, state, quote)
    {
      ghost var at, from, mark := index, state, quote;
      hide *;
      index, state, quote := Round(chars, source, index, state, quote);
      RoundKeeps(source, kinds, at, from, mark, index, state, quote);
      forall k | at <= k < index ensures chars[k] == Shown(source[k], kinds[k]) {
        ShownAlike(source[k], kinds[k], if from == Code then state else from);
      }
    }
    masked := chars[..];
  }
}
