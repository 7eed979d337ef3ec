/** Turning a GC log path template into a glob pattern, and the meaning of the result. */
module GcLogPath {
  import opened Lines

  /** The placeholders of a template, in the order in which the code replaces them. */
  datatype Token = Pid | Seq | Tick | Uid | Last | P | T | Year4 | Year2 | Month | Day | Hour | Minute | Second

  const TOKENS: seq<Token> := [Pid, Seq, Tick, Uid, Last, P, T, Year4, Year2, Month, Day, Hour, Minute, Second]

  function Text(t: Token): (s: string)
    ensures |s| >= 2 && s[0] == '%'
  {
    match t
    case Pid => "%pid" case Seq => "%seq" case Tick => "%tick" case Uid => "%uid" case Last => "%last"
    case P => "%p" case T => "%t" case Year4 => "%Y" case Year2 => "%y" case Month => "%m"
    case Day => "%d" case Hour => "%H" case Minute => "%M" case Second => "%S"
  }

  function Digits(n: nat): (s: string)
    ensures s != [] && forall i :: 0 <= i < |s| ==> '0' <= s[i] <= '9'
  {
    var d := ['0' + (n % 10) as char];
    if n < 10 then d else Digits(n / 10) + d
  }

  function Itoa(n: int): (s: string)
    ensures s != [] && forall i :: 0 <= i < |s| ==> s[i] == '-' || '0' <= s[i] <= '9'
  {
    if n < 0 then ['-'] + Digits(-n) else Digits(n)
  }

  function Glob(t: Token, pid: int): (s: string)
    ensures s != [] && forall i :: 0 <= i < |s| ==> s[i] in {'*', '?', '-', '_'} || '0' <= s[i] <= '9'
  {
    match t
    case Pid => Itoa(pid)
    case Seq => "???"
    case Tick => "*" case Uid => "*" case Last => "*"
    case P => "*" + Itoa(pid)
    case T => "????-??-??_??-??-??"
    case Year4 => "????"
    case _ => "??"
  }

  // ---------- the code: replacements one after the other ----------

  /** strings.ReplaceAll, or strings.Replace with a limit of one, for a non-empty pattern. */
  function ReplaceText(s: string, pat: string, rep: string, all: bool): string
    requires pat != []
    decreases |s|
  {
    if s == [] then []
    else if pat <= s then rep + if all then ReplaceText(s[|pat|..], pat, rep, all) else s[|pat|..]
    else [s[0]] + ReplaceText(s[1..], pat, rep, all)
  }

  /** Only the first occurrence of a pid token is replaced. */
  predicate AllReplaced(t: Token) {
    t != Pid && t != P
  }

  function ReplaceEach(s: string, ts: seq<Token>, pid: int): string
    decreases |ts|
  {
    if ts == [] then s
    else ReplaceEach(ReplaceText(s, Text(ts[0]), Glob(ts[0], pid), AllReplaced(ts[0])), ts[1..], pid)
  }

  /** GetGlobPatternFromGCPath. */
  function GlobPattern(gcPath: string, pid: int): string
  {
    ReplaceEach(gcPath, TOKENS, pid)
  }

  // ---------- templates ----------

  datatype Piece = Lit(c: char) | Tok(t: Token)

  function Shown(p: Piece): string
  {
    match p case Lit(c) => [c] case Tok(t) => Text(t)
  }

  function Render(ps: seq<Piece>): string
  {
    if ps == [] then [] else Shown(ps[0]) + Render(ps[1..])
  }

  function Lits(s: string): (ps: seq<Piece>)
    ensures |ps| == |s| && forall i :: 0 <= i < |s| ==> ps[i] == Lit(s[i])
  {
    seq(|s|, i requires 0 <= i < |s| => Lit(s[i]))
  }

  /** The template with every occurrence of one token, or only the first, put as other pieces. */
  function Subst(ps: seq<Piece>, t: Token, put: seq<Piece>, all: bool): seq<Piece>
  {
    if ps == [] then []
    else if ps[0] == Tok(t) then put + if all then Subst(ps[1..], t, put, all) else ps[1..]
    else [ps[0]] + Subst(ps[1..], t, put, all)
  }

  /** The template with every token put as its glob, token by token. */
  function Mapped(ps: seq<Piece>, pid: int): string
  {
    if ps == [] then []
    else (match ps[0] case Lit(c) => [c] case Tok(t) => Glob(t, pid)) + Mapped(ps[1..], pid)
  }

  predicate Follows(ps: seq<Piece>, text: string)
  {
    |text| <= |ps| && forall i :: 0 <= i < |text| ==> ps[i] == Lit(text[i])
  }

  predicate Letter(c: char) {
    'a' <= c <= 'z' || 'A' <= c <= 'Z'
  }

  /** Literals that complete a percent sign before them to a token. */
  ghost predicate Completes(ps: seq<Piece>) {
    exists u :: Follows(ps, Text(u)[1..])
  }

  /** A literal percent sign begins no token, and no literal continues a %t to %tick. */
  ghost predicate Loose(ps: seq<Piece>)
  {
    ps == [] ||
    ((ps[0] == Lit('%') ==> !Completes(ps[1..])) && (ps[0] == Tok(T) ==> !Follows(ps[1..], "ick")) && Loose(ps[1..]))
  }

  /** And none continues a %p to %pid. */
  ghost predicate NoFusing(ps: seq<Piece>)
  {
    ps == [] || (Loose(ps) && (ps[0] == Tok(P) ==> !Follows(ps[1..], "id")) && NoFusing(ps[1..]))
  }

  function Occurrences(ps: seq<Piece>, t: Token): nat
  {
    if ps == [] then 0 else (if ps[0] == Tok(t) then 1 else 0) + Occurrences(ps[1..], t)
  }

  // ---------- a token occurs in the text exactly where it stands in the template ----------

  /** Different tokens differ in their second letter, except %p/%pid and %t/%tick. */
  lemma {:induction false} SecondLetters(t: Token, u: Token)
    requires t != u && Text(t)[1] == Text(u)[1]
    ensures (t == P && u == Pid) || (t == Pid && u == P) || (t == T && u == Tick) || (t == Tick && u == T)
  {
  }

  /** A percent-free text in front of a rendered template is made of literals. */
  lemma {:induction false} LiteralPrefix(ps: seq<Piece>, text: string)
    requires text <= Render(ps) && '%' !in text
    ensures Follows(ps, text)
    decreases |text|
  {
    if text != [] {
      assert Render(ps)[0] == text[0] && text[0] in text;
      assert ps[0] == Lit(text[0]);
      assert Render(ps)[1..] == Render(ps[1..]);
      LiteralPrefix(ps[1..], text[1..]);
      assert forall i :: 1 <= i < |text| ==> ps[i] == ps[1..][i - 1] && text[i] == text[1..][i - 1];
    }
  }

  /** When it is the turn of %p no %pid is left, and when it is the turn of %t no %tick. */
  ghost predicate Turn(ps: seq<Piece>, t: Token) {
    && Loose(ps)
    && (t == Pid ==> NoFusing(ps))
    && (t == P ==> Occurrences(ps, Pid) == 0)
    && (t == T ==> Occurrences(ps, Tick) == 0)
  }

  lemma {:induction false} NotLonger(ps: seq<Piece>, u: Token, t: Token, more: string)
    requires ps != [] && ps[0] == Tok(u) && Text(t) == Text(u) + more && '%' !in more && Text(t) <= Render(ps)
    ensures Follows(ps[1..], more)
  {
    var r := Render(ps);
    assert r == Text(u) + Render(ps[1..]);
    assert r[|Text(u)|..] == Render(ps[1..]);
    assert Text(t)[|Text(u)|..] == more;
    LiteralPrefix(ps[1..], more);
  }

  lemma {:induction false} TokenLetters(u: Token)
    ensures '%' !in Text(u)[1..] && forall i :: 0 <= i < |Text(u)[1..]| ==> Letter(Text(u)[1..][i])
  {
  }

  lemma {:induction false} NotCompleted(ps: seq<Piece>, t: Token)
    requires ps != [] && ps[0] == Lit('%') && !Completes(ps[1..])
    ensures !(Text(t) <= Render(ps))
  {
    if Text(t) <= Render(ps) {
      TokenLetters(t);
      assert Render(ps)[1..] == Render(ps[1..]);
      LiteralPrefix(ps[1..], Text(t)[1..]);
    }
  }

  /** The pattern of a token matches the text at a piece exactly when that piece is the token. */
  lemma {:induction false} MatchesAtToken(ps: seq<Piece>, t: Token)
    requires ps != [] && Turn(ps, t)
    ensures Text(t) <= Render(ps) <==> ps[0] == Tok(t)
  {
    var r := Render(ps);
    assert r == Shown(ps[0]) + Render(ps[1..]);
    match ps[0]
    case Lit(c) =>
      assert r[0] == c;
      if c == '%' {
        NotCompleted(ps, t);
      }
    case Tok(u) =>
      if u != t && Text(t) <= r {
        assert r[1] == Text(u)[1] == Text(t)[1];
        SecondLetters(t, u);
        if u == P {
          NotLonger(ps, P, Pid, "id");
        } else if u == T {
          NotLonger(ps, T, Tick, "ick");
        }
      }
  }

  /** Text without a percent sign is passed over. */
  lemma {:induction false} Skip(x: string, y: string, pat: string, rep: string, all: bool)
    requires pat != [] && pat[0] == '%' && '%' !in x
    ensures ReplaceText(x + y, pat, rep, all) == x + ReplaceText(y, pat, rep, all)
    decreases |x|
  {
    if x == [] {
      assert x + y == y;
    } else {
      assert (x + y)[0] == x[0] && x[0] in x;
      assert (x + y)[1..] == x[1..] + y;
      Skip(x[1..], y, pat, rep, all);
      assert [x[0]] + (x[1..] + ReplaceText(y, pat, rep, all)) == x + ReplaceText(y, pat, rep, all);
    }
  }

  lemma {:induction false} RenderAppend(xs: seq<Piece>, ys: seq<Piece>)
    ensures Render(xs + ys) == Render(xs) + Render(ys)
    decreases |xs|
  {
    if xs == [] {
      assert xs + ys == ys;
    } else {
      assert (xs + ys)[0] == xs[0] && (xs + ys)[1..] == xs[1..] + ys;
      RenderAppend(xs[1..], ys);
    }
  }

  lemma {:induction false} RenderLits(s: string)
    ensures Render(Lits(s)) == s
    decreases |s|
  {
    if s != [] {
      assert Lits(s)[1..] == Lits(s[1..]);
      RenderLits(s[1..]);
      assert [s[0]] + s[1..] == s;
    }
  }

  /** A piece that is not the token keeps its text, and the search goes on behind it. */
  lemma {:induction false} PassPiece(ps: seq<Piece>, t: Token, rep: string, all: bool)
    requires ps != [] && Turn(ps, t) && ps[0] != Tok(t)
    ensures ReplaceText(Render(ps), Text(t), rep, all)
         == Shown(ps[0]) + ReplaceText(Render(ps[1..]), Text(t), rep, all)
  {
    MatchesAtToken(ps, t);
    ShownTail(ps[0]);
    SkipShown(Render(ps), Shown(ps[0]), Render(ps[1..]), Text(t), rep, all);
  }

  /** Where the pattern does not match, a percent sign is passed over as well. */
  lemma {:induction false} SkipShown(r: string, shown: string, rest: string, pat: string, rep: string, all: bool)
    requires shown != [] && r == shown + rest && '%' !in shown[1..] && pat != [] && pat[0] == '%' && !(pat <= r)
    ensures ReplaceText(r, pat, rep, all) == shown + ReplaceText(rest, pat, rep, all)
  {
    var x := shown[1..];
    assert r[0] == shown[0] && r[1..] == x + rest;
    Skip(x, rest, pat, rep, all);
    assert [shown[0]] + x == shown;
    Regroup([shown[0]], x, ReplaceText(rest, pat, rep, all));
  }

  lemma {:induction false} Regroup(a: string, b: string, c: string)
    ensures a + (b + c) == a + b + c
  {
  }

  lemma {:induction false} ShownTail(p: Piece)
    ensures '%' !in Shown(p)[1..]
  {
  }

  /** Replacing in the text is putting the token in the template, all of them or the first. */
  lemma {:induction false} ReplaceIsSubst(ps: seq<Piece>, t: Token, rep: string, all: bool)
    requires Turn(ps, t)
    ensures ReplaceText(Render(ps), Text(t), rep, all) == Render(Subst(ps, t, Lits(rep), all))
    decreases |ps|
  {
    if ps != [] {
      var rest, put := ps[1..], Lits(rep);
      ReplaceIsSubst(rest, t, rep, all);
      if ps[0] == Tok(t) {
        PutPiece(ps, t, rep, all);
        RenderPut(rep, if all then Subst(rest, t, put, all) else rest);
      } else {
        PassPiece(ps, t, rep, all);
        RenderOne(ps[0], Subst(rest, t, put, all));
      }
    }
  }

  /** A piece that is the token is replaced. */
  lemma {:induction false} PutPiece(ps: seq<Piece>, t: Token, rep: string, all: bool)
    requires ps != [] && ps[0] == Tok(t)
    ensures ReplaceText(Render(ps), Text(t), rep, all)
         == rep + if all then ReplaceText(Render(ps[1..]), Text(t), rep, all) else Render(ps[1..])
  {
    assert Render(ps)[|Text(t)|..] == Render(ps[1..]);
  }

  lemma {:induction false} RenderPut(rep: string, ps: seq<Piece>)
    ensures Render(Lits(rep) + ps) == rep + Render(ps)
  {
    RenderAppend(Lits(rep), ps);
    RenderLits(rep);
  }

  lemma {:induction false} RenderOne(p: Piece, ps: seq<Piece>)
    ensures Render([p] + ps) == Shown(p) + Render(ps)
  {
    assert ([p] + ps)[1..] == ps;
  }

  // ---------- what a replacement keeps ----------

  /** Pieces that complete no token in front of them and begin none. */
  ghost predicate Harmless(put: seq<Piece>) {
    && put != [] && (put[0].Lit? ==> !Letter(put[0].c))
    && forall i :: 0 <= i < |put| ==> put[i] != Lit('%') && put[i] != Tok(T)
  }

  lemma {:induction false} SubstHead(ps: seq<Piece>, t: Token, put: seq<Piece>, all: bool)
    requires ps != [] && put != []
    ensures var after := Subst(ps, t, put, all);
      && after != [] && after[0] == (if ps[0] == Tok(t) then put[0] else ps[0])
      && (ps[0] != Tok(t) ==> after[1..] == Subst(ps[1..], t, put, all))
  {
  }

  lemma {:induction false} FollowsAfter(ps: seq<Piece>, t: Token, put: seq<Piece>, all: bool, text: string)
    requires Harmless(put) && Follows(Subst(ps, t, put, all), text)
    requires forall i :: 0 <= i < |text| ==> Letter(text[i])
    ensures Follows(ps, text)
    decreases |text|
  {
    if text != [] {
      assert ps != [];
      SubstHead(ps, t, put, all);
      FollowsHead(Subst(ps, t, put, all), text);
      assert Letter(text[0]) && forall i :: 0 <= i < |text[1..]| ==> text[1..][i] == text[i + 1];
      FollowsAfter(ps[1..], t, put, all, text[1..]);
      FollowsHead(ps, text);
    }
  }

  lemma {:induction false} FollowsHead(ps: seq<Piece>, text: string)
    requires ps != [] && text != []
    ensures Follows(ps, text) <==> ps[0] == Lit(text[0]) && Follows(ps[1..], text[1..])
  {
    var rest, more := ps[1..], text[1..];
    if Follows(ps, text) {
      assert forall i :: 0 <= i < |more| ==> rest[i] == ps[i + 1] && more[i] == text[i + 1];
    }
    if ps[0] == Lit(text[0]) && Follows(rest, more) {
      assert forall i :: 1 <= i < |text| ==> ps[i] == rest[i - 1] && text[i] == more[i - 1];
    }
  }

  lemma {:induction false} PutInFront(put: seq<Piece>, ps: seq<Piece>)
    requires (forall i :: 0 <= i < |put| ==> put[i] != Lit('%') && put[i] != Tok(T)) && Loose(ps)
    ensures Loose(put + ps)
    decreases |put|
  {
    if put == [] {
      assert put + ps == ps;
    } else {
      PutInFront(put[1..], ps);
      assert (put + ps)[1..] == put[1..] + ps;
    }
  }

  lemma {:induction false} SubstKeepsLoose(ps: seq<Piece>, t: Token, put: seq<Piece>, all: bool)
    requires Loose(ps) && Harmless(put)
    ensures Loose(Subst(ps, t, put, all))
    decreases |ps|
  {
    if ps != [] {
      var after := Subst(ps[1..], t, put, all);
      SubstKeepsLoose(ps[1..], t, put, all);
      if ps[0] == Tok(t) {
        PutInFront(put, if all then after else ps[1..]);
      } else {
        assert ([ps[0]] + after)[1..] == after;
        if Follows(after, "ick") {
          FollowsAfter(ps[1..], t, put, all, "ick");
        }
        if u :| Follows(after, Text(u)[1..]) {
          TokenLetters(u);
          FollowsAfter(ps[1..], t, put, all, Text(u)[1..]);
        }
      }
    }
  }

  lemma {:induction false} OccurrencesAppend(xs: seq<Piece>, ys: seq<Piece>, u: Token)
    ensures Occurrences(xs + ys, u) == Occurrences(xs, u) + Occurrences(ys, u)
    decreases |xs|
  {
    if xs == [] {
      assert xs + ys == ys;
    } else {
      assert (xs + ys)[1..] == xs[1..] + ys;
      OccurrencesAppend(xs[1..], ys, u);
    }
  }

  lemma {:induction false} OccurrencesOne(p: Piece, ps: seq<Piece>, u: Token)
    ensures Occurrences([p] + ps, u) == (if p == Tok(u) then 1 else 0) + Occurrences(ps, u)
  {
    assert ([p] + ps)[1..] == ps;
  }

  lemma {:induction false} NoneInLits(s: string, u: Token)
    ensures Occurrences(Lits(s), u) == 0
    decreases |s|
  {
    if s != [] {
      assert Lits(s)[1..] == Lits(s[1..]);
      NoneInLits(s[1..], u);
    }
  }

  /** How many occurrences of a token are replaced. */
  function Replaced(ps: seq<Piece>, t: Token, all: bool): nat
  {
    if all || Occurrences(ps, t) == 0 then Occurrences(ps, t) else 1
  }

  /** A count, from the first piece on. */
  lemma {:induction false} SubstSplits(ps: seq<Piece>, t: Token, put: seq<Piece>, all: bool, u: Token)
    requires ps != []
    ensures Occurrences(Subst(ps, t, put, all), u) ==
      if ps[0] != Tok(t) then (if ps[0] == Tok(u) then 1 else 0) + Occurrences(Subst(ps[1..], t, put, all), u)
      else Occurrences(put, u) + if all then Occurrences(Subst(ps[1..], t, put, all), u) else Occurrences(ps[1..], u)
  {
    var after := Subst(ps[1..], t, put, all);
    if ps[0] == Tok(t) {
      OccurrencesAppend(put, if all then after else ps[1..], u);
    } else {
      OccurrencesOne(ps[0], after, u);
    }
  }

  lemma {:induction false} SubstRemoves(ps: seq<Piece>, t: Token, put: seq<Piece>, all: bool)
    requires Occurrences(put, t) == 0
    ensures Occurrences(Subst(ps, t, put, all), t) == Occurrences(ps, t) - Replaced(ps, t, all)
    decreases |ps|
  {
    if ps != [] {
      SubstSplits(ps, t, put, all, t);
      SubstRemoves(ps[1..], t, put, all);
    }
  }

  /** Another token that is not put is kept. */
  lemma {:induction false} SubstKeeps(ps: seq<Piece>, t: Token, put: seq<Piece>, all: bool, u: Token)
    requires u != t && Occurrences(put, u) == 0
    ensures Occurrences(Subst(ps, t, put, all), u) == Occurrences(ps, u)
    decreases |ps|
  {
    if ps != [] {
      SubstSplits(ps, t, put, all, u);
      SubstKeeps(ps[1..], t, put, all, u);
    }
  }

  /** One that is put once is added for every token replaced. */
  lemma {:induction false} SubstAdds(ps: seq<Piece>, t: Token, put: seq<Piece>, u: Token)
    requires u != t && Occurrences(put, u) == 1
    ensures Occurrences(Subst(ps, t, put, true), u) == Occurrences(ps, u) + Occurrences(ps, t)
    decreases |ps|
  {
    if ps != [] {
      SubstSplits(ps, t, put, true, u);
      SubstAdds(ps[1..], t, put, u);
    }
  }

  lemma {:induction false} NothingToSubst(ps: seq<Piece>, t: Token, put: seq<Piece>, all: bool)
    requires Occurrences(ps, t) == 0
    ensures Subst(ps, t, put, all) == ps
    decreases |ps|
  {
    if ps != [] {
      NothingToSubst(ps[1..], t, put, all);
      assert [ps[0]] + ps[1..] == ps;
    }
  }

  // ---------- what the replacements after that of %pid make of a template ----------

  /** Token by token, but a %p behind another one stays as it is. */
  function MappedFrom(ps: seq<Piece>, pid: int, used: bool): string
  {
    if ps == [] then []
    else match ps[0]
      case Lit(c) => [c] + MappedFrom(ps[1..], pid, used)
      case Tok(t) => (if t == P && used then Text(P) else Glob(t, pid)) + MappedFrom(ps[1..], pid, used || t == P)
  }

  lemma {:induction false} MappedFromLits(s: string, ps: seq<Piece>, pid: int, used: bool)
    ensures MappedFrom(Lits(s) + ps, pid, used) == s + MappedFrom(ps, pid, used)
    decreases |s|
  {
    var all := Lits(s) + ps;
    if s == [] {
      assert all == ps;
    } else {
      assert all[0] == Lit(s[0]) && all[1..] == Lits(s[1..]) + ps;
      MappedFromLits(s[1..], ps, pid, used);
      Regroup([s[0]], s[1..], MappedFrom(ps, pid, used));
      assert [s[0]] + s[1..] == s;
    }
  }

  lemma {:induction false} MappedFromOne(p: Piece, ps: seq<Piece>, pid: int, used: bool)
    ensures MappedFrom([p] + ps, pid, used) ==
      match p
      case Lit(c) => [c] + MappedFrom(ps, pid, used)
      case Tok(t) => (if t == P && used then Text(P) else Glob(t, pid)) + MappedFrom(ps, pid, used || t == P)
  {
    assert ([p] + ps)[1..] == ps;
  }

  /** Putting a token as its glob does not change the result; putting the first %p makes it used. */
  lemma {:induction false} SubstKeepsMappedFrom(ps: seq<Piece>, t: Token, pid: int, used: bool)
    requires t != Pid && (t == P ==> !used)
    ensures MappedFrom(Subst(ps, t, Lits(Glob(t, pid)), AllReplaced(t)), pid, used || t == P)
         == MappedFrom(ps, pid, used)
    decreases |ps|
  {
    if ps != [] {
      var rest, put := ps[1..], Lits(Glob(t, pid));
      var after := Subst(rest, t, put, AllReplaced(t));
      if ps[0] == Tok(t) {
        if t != P {
          SubstKeepsMappedFrom(rest, t, pid, used);
        }
        MappedFromLits(Glob(t, pid), if t == P then rest else after, pid, used || t == P);
      } else {
        var usedNext := used || ps[0] == Tok(P);
        SubstKeepsMappedFrom(rest, t, pid, usedNext);
        MappedFromOne(ps[0], after, pid, used || t == P);
      }
    }
  }

  lemma {:induction false} OnlyPLeft(ps: seq<Piece>, pid: int)
    requires forall u :: u != P ==> Occurrences(ps, u) == 0
    ensures Render(ps) == MappedFrom(ps, pid, true)
    decreases |ps|
  {
    if ps != [] {
      assert ps[0].Tok? ==> Occurrences(ps, ps[0].t) > 0;
      forall u | u != P ensures Occurrences(ps[1..], u) == 0 {
        assert Occurrences(ps, u) == 0;
      }
      OnlyPLeft(ps[1..], pid);
    }
  }

  lemma {:induction false} GlobHarmless(t: Token, pid: int)
    ensures Harmless(Lits(Glob(t, pid)))
  {
  }

  /** Position of a token in the order of replacement. */
  function Rank(t: Token): (k: nat)
    ensures k < |TOKENS| && TOKENS[k] == t
  {
    match t
    case Pid => 0 case Seq => 1 case Tick => 2 case Uid => 3 case Last => 4 case P => 5 case T => 6
    case Year4 => 7 case Year2 => 8 case Month => 9 case Day => 10 case Hour => 11 case Minute => 12 case Second => 13
  }

  /** Before the k-th replacement: the tokens replaced so far are gone, except further %p. */
  ghost predicate Ready(ps: seq<Piece>, k: nat) {
    Loose(ps) && k > 0 && forall u :: u != P && Rank(u) < k ==> Occurrences(ps, u) == 0
  }

  lemma {:induction false} ReadyTurn(ps: seq<Piece>, t: Token)
    requires Ready(ps, Rank(t))
    ensures Turn(ps, t)
  {
    assert Rank(Pid) < Rank(P) && Rank(Tick) < Rank(T);
  }

  lemma {:induction false} ReadyNext(ps: seq<Piece>, t: Token, rep: string)
    requires Ready(ps, Rank(t)) && Harmless(Lits(rep))
    ensures Ready(Subst(ps, t, Lits(rep), AllReplaced(t)), Rank(t) + 1)
  {
    var after := Subst(ps, t, Lits(rep), AllReplaced(t));
    SubstKeepsLoose(ps, t, Lits(rep), AllReplaced(t));
    forall u | u != P && Rank(u) < Rank(t) + 1 ensures Occurrences(after, u) == 0 {
      NoneInLits(rep, u);
      if u == t {
        SubstRemoves(ps, t, Lits(rep), AllReplaced(t));
      } else {
        assert Rank(u) != Rank(t);
        SubstKeeps(ps, t, Lits(rep), AllReplaced(t), u);
      }
    }
  }

  /** The replacements from the k-th on. */
  lemma {:induction false} ReplacementsFrom(ps: seq<Piece>, k: nat, pid: int)
    requires k <= |TOKENS| && Ready(ps, k)
    ensures ReplaceEach(Render(ps), TOKENS[k..], pid) == MappedFrom(ps, pid, k > Rank(P))
    decreases |TOKENS| - k
  {
    if k == |TOKENS| {
      OnlyPLeft(ps, pid);
    } else {
      var t := TOKENS[k];
      RankOf(k);
      ReadyTurn(ps, t);
      ReplaceIsSubst(ps, t, Glob(t, pid), AllReplaced(t));
      GlobHarmless(t, pid);
      ReadyNext(ps, t, Glob(t, pid));
      SubstKeepsMappedFrom(ps, t, pid, k > Rank(P));
      ReplacementsFrom(Subst(ps, t, Lits(Glob(t, pid)), AllReplaced(t)), k + 1, pid);
      NextReplacement(Render(ps), k, pid);
    }
  }

  lemma {:induction false} NextReplacement(s: string, k: nat, pid: int)
    requires k < |TOKENS|
    ensures var t := TOKENS[k];
      ReplaceEach(s, TOKENS[k..], pid)
        == ReplaceEach(ReplaceText(s, Text(t), Glob(t, pid), AllReplaced(t)), TOKENS[k + 1..], pid)
  {
    assert TOKENS[k..][1..] == TOKENS[k + 1..];
  }

  lemma {:induction false} RankOf(k: nat)
    requires k < |TOKENS|
    ensures Rank(TOKENS[k]) == k
    ensures TOKENS[k] == P <==> k == Rank(P)
  {
  }

  // ---------- the first theorem: what the fourteen replacements make of a template ----------

  /** What a %pid that was not replaced looks like to the replacements after it. */
  const UNREPLACED: seq<Piece> := [Tok(P), Lit('i'), Lit('d')]

  /** The first %pid put as the process id, every other one taken apart. */
  function AfterPid(ps: seq<Piece>, pid: int): seq<Piece>
  {
    Subst(Subst(ps, Pid, Lits(Itoa(pid)), false), Pid, UNREPLACED, true)
  }

  lemma {:induction false} TakenApart(ps: seq<Piece>)
    ensures Render(Subst(ps, Pid, UNREPLACED, true)) == Render(ps)
    decreases |ps|
  {
    if ps != [] {
      var after := Subst(ps[1..], Pid, UNREPLACED, true);
      TakenApart(ps[1..]);
      if ps[0] == Tok(Pid) {
        RenderAppend(UNREPLACED, after);
        assert Render(UNREPLACED) == "%p" + ("i" + ("d" + [])) == "%pid";
      } else {
        RenderAppend([ps[0]], after);
        assert Render([ps[0]]) == Shown(ps[0]);
      }
    }
  }

  lemma {:induction false} AfterPidReady(ps: seq<Piece>, pid: int)
    requires Loose(ps)
    ensures Ready(AfterPid(ps, pid), 1)
    ensures Occurrences(AfterPid(ps, pid), P)
         == Occurrences(ps, P) + if Occurrences(ps, Pid) <= 1 then 0 else Occurrences(ps, Pid) - 1
  {
    var put := Lits(Itoa(pid));
    var once := Subst(ps, Pid, put, false);
    GlobHarmless(Pid, pid);
    SubstKeepsLoose(ps, Pid, put, false);
    SubstKeepsLoose(once, Pid, UNREPLACED, true);
    NoneInLits(Itoa(pid), Pid);
    NoneInLits(Itoa(pid), P);
    SubstRemoves(ps, Pid, put, false);
    SubstKeeps(ps, Pid, put, false, P);
    UnreplacedCounts();
    SubstRemoves(once, Pid, UNREPLACED, true);
    SubstAdds(once, Pid, UNREPLACED, P);
    forall u | u != P && Rank(u) < 1 ensures Occurrences(AfterPid(ps, pid), u) == 0 {
      assert u == Pid;
    }
  }

  lemma {:induction false} UnreplacedCounts()
    ensures Occurrences(UNREPLACED, Pid) == 0 && Occurrences(UNREPLACED, P) == 1
  {
    assert UNREPLACED[1..] == [Lit('i'), Lit('d')] && UNREPLACED[1..][1..] == [Lit('d')];
  }

  /** For every template that fuses nothing: the first %pid, the first %p left by it and all other tokens are put. */
  lemma {:induction false} GlobPatternExactly(ps: seq<Piece>, pid: int)
    requires NoFusing(ps)
    ensures GlobPattern(Render(ps), pid) == MappedFrom(AfterPid(ps, pid), pid, false)
  {
    AllReplacements(ps, TOKENS, pid);
  }

  lemma {:induction false} AllReplacements(ps: seq<Piece>, ts: seq<Token>, pid: int)
    requires ts == TOKENS && NoFusing(ps)
    ensures ReplaceEach(Render(ps), ts, pid) == MappedFrom(AfterPid(ps, pid), pid, false)
  {
    var once := Subst(ps, Pid, Lits(Itoa(pid)), false);
    ReplaceIsSubst(ps, Pid, Itoa(pid), false);
    TakenApart(once);
    AfterPidReady(ps, pid);
    assert ts == TOKENS[0..];
    RankOf(0);
    NextReplacement(Render(ps), 0, pid);
    ReplacementsFrom(AfterPid(ps, pid), 1, pid);
  }

  // ---------- when that is the token-by-token mapping ----------

  function Count(s: string, c: char): nat
  {
    if s == [] then 0 else (if s[0] == c then 1 else 0) + Count(s[1..], c)
  }

  lemma {:induction false} CountAppend(x: string, y: string, c: char)
    ensures Count(x + y, c) == Count(x, c) + Count(y, c)
    decreases |x|
  {
    if x == [] {
      assert x + y == y;
    } else {
      assert (x + y)[0] == x[0] && (x + y)[1..] == x[1..] + y;
      CountAppend(x[1..], y, c);
    }
  }

  lemma {:induction false} CountNone(s: string, c: char)
    requires c !in s
    ensures Count(s, c) == 0
    decreases |s|
  {
    if s != [] {
      assert s[0] in s;
      CountNone(s[1..], c);
    }
  }

  lemma {:induction false} MappedAppend(xs: seq<Piece>, ys: seq<Piece>, pid: int)
    ensures Mapped(xs + ys, pid) == Mapped(xs, pid) + Mapped(ys, pid)
    decreases |xs|
  {
    if xs == [] {
      assert xs + ys == ys;
    } else {
      assert (xs + ys)[0] == xs[0] && (xs + ys)[1..] == xs[1..] + ys;
      MappedAppend(xs[1..], ys, pid);
    }
  }

  lemma {:induction false} MappedLits(s: string, pid: int)
    ensures Mapped(Lits(s), pid) == s
    decreases |s|
  {
    if s != [] {
      assert Lits(s)[1..] == Lits(s[1..]);
      MappedLits(s[1..], pid);
      assert [s[0]] + s[1..] == s;
    }
  }

  lemma {:induction false} MappedOne(p: Piece, pid: int)
    ensures Mapped([p], pid) == match p case Lit(c) => [c] case Tok(t) => Glob(t, pid)
  {
    assert [p][1..] == [];
  }

  /** Putting tokens as their globs does not change the token-by-token mapping. */
  lemma {:induction false} SubstKeepsMapped(ps: seq<Piece>, t: Token, pid: int, all: bool)
    ensures Mapped(Subst(ps, t, Lits(Glob(t, pid)), all), pid) == Mapped(ps, pid)
    decreases |ps|
  {
    if ps != [] {
      var rest, put := ps[1..], Lits(Glob(t, pid));
      SubstKeepsMapped(rest, t, pid, all);
      if ps[0] == Tok(t) {
        MappedAppend(put, if all then Subst(rest, t, put, all) else rest, pid);
        MappedLits(Glob(t, pid), pid);
      } else {
        MappedAppend([ps[0]], Subst(rest, t, put, all), pid);
        MappedOne(ps[0], pid);
      }
    }
  }

  /** With one %p at most there is none that stays. */
  lemma {:induction false} OnePMapped(ps: seq<Piece>, pid: int, used: bool)
    requires Occurrences(ps, P) + (if used then 1 else 0) <= 1
    ensures MappedFrom(ps, pid, used) == Mapped(ps, pid)
    decreases |ps|
  {
    if ps != [] {
      OnePMapped(ps[1..], pid, used || ps[0] == Tok(P));
    }
  }

  /** A character outside of all globs is counted in the literals only. */
  predicate Foreign(c: char) {
    c !in {'*', '?', '-', '_'} && !('0' <= c <= '9')
  }

  lemma {:induction false} GlobForeign(t: Token, pid: int, c: char)
    requires Foreign(c)
    ensures Count(Glob(t, pid), c) == 0
  {
    CountNone(Glob(t, pid), c);
  }

  /** How many %p stay as they are. */
  function Staying(ps: seq<Piece>, used: bool): nat
  {
    if used || Occurrences(ps, P) == 0 then Occurrences(ps, P) else Occurrences(ps, P) - 1
  }

  /** Each of them leaves a percent sign that the mapping does not have. */
  lemma {:induction false} StayingPercents(ps: seq<Piece>, pid: int, used: bool)
    ensures Count(MappedFrom(ps, pid, used), '%') == Count(Mapped(ps, pid), '%') + Staying(ps, used)
    decreases |ps|
  {
    if ps != [] {
      var rest, usedNext := ps[1..], used || ps[0] == Tok(P);
      StayingPercents(rest, pid, usedNext);
      match ps[0]
      case Lit(c) =>
        CountAppend([c], MappedFrom(rest, pid, used), '%');
        CountAppend([c], Mapped(rest, pid), '%');
      case Tok(t) =>
        var front := if t == P && used then Text(P) else Glob(t, pid);
        CountAppend(front, MappedFrom(rest, pid, usedNext), '%');
        CountAppend(Glob(t, pid), Mapped(rest, pid), '%');
        GlobForeign(t, pid, '%');
        PercentOfP();
    }
  }

  lemma {:induction false} PercentOfP()
    ensures Count(Text(P), '%') == 1
  {
    assert Text(P)[1..] == "p" && "p"[1..] == [];
  }

  /** What a %pid that was taken apart adds to a count: a letter that the mapping does not have, no percent sign. */
  lemma {:induction false} UnreplacedLetters(ps: seq<Piece>, pid: int, c: char, each: nat)
    requires Foreign(c) && each == Count(Mapped(UNREPLACED, pid), c) <= 1
    ensures Count(Mapped(Subst(ps, Pid, UNREPLACED, true), pid), c)
         == Count(Mapped(ps, pid), c) + if each == 0 then 0 else Occurrences(ps, Pid)
    decreases |ps|
  {
    if ps != [] {
      var rest := ps[1..];
      var after := Subst(rest, Pid, UNREPLACED, true);
      UnreplacedLetters(rest, pid, c, each);
      MappedOne(ps[0], pid);
      CountAppend(Mapped([ps[0]], pid), Mapped(rest, pid), c);
      var put := if ps[0] == Tok(Pid) then UNREPLACED else [ps[0]];
      MappedAppend(put, after, pid);
      CountAppend(Mapped(put, pid), Mapped(after, pid), c);
      if ps[0] == Tok(Pid) {
        GlobForeign(Pid, pid, c);
      }
    }
  }

  lemma {:induction false} UnreplacedLetter(pid: int)
    ensures Count(Mapped(UNREPLACED, pid), 'i') == 1 && Count(Mapped(UNREPLACED, pid), '%') == 0
  {
    var rest := UNREPLACED[1..];
    assert rest == [Lit('i')] + [Lit('d')];
    MappedAppend([Lit('i')], [Lit('d')], pid);
    MappedOne(Lit('i'), pid);
    MappedOne(Lit('d'), pid);
    assert Mapped(rest, pid) == "id";
    GlobForeign(P, pid, 'i');
    GlobForeign(P, pid, '%');
    CountAppend(Glob(P, pid), "id", 'i');
    CountAppend(Glob(P, pid), "id", '%');
    assert "id"[1..] == "d" && "d"[1..] == [];
  }

  /** A percent sign or a letter i too many. */
  predicate TooMany(pattern: string, mapping: string) {
    Count(pattern, '%') > Count(mapping, '%') || Count(pattern, 'i') > Count(mapping, 'i')
  }

  predicate OnePidToken(ps: seq<Piece>) {
    Occurrences(ps, Pid) <= 1 && Occurrences(ps, P) <= 1
  }

  /** The exact result against the mapping: the percent signs and the letters i that are too many. */
  lemma {:induction false} PatternAgainstMapping(ps: seq<Piece>, pid: int)
    requires NoFusing(ps)
    ensures var pattern := GlobPattern(Render(ps), pid);
      if OnePidToken(ps) then pattern == Mapped(ps, pid)
      else TooMany(pattern, Mapped(ps, pid))
  {
    GlobPatternExactly(ps, pid);
    ResultAgainstMapping(ps, pid);
  }

  lemma {:induction false} ResultAgainstMapping(ps: seq<Piece>, pid: int)
    requires Loose(ps)
    ensures var pattern := MappedFrom(AfterPid(ps, pid), pid, false);
      if OnePidToken(ps) then pattern == Mapped(ps, pid)
      else TooMany(pattern, Mapped(ps, pid))
  {
    var once, after := Subst(ps, Pid, Lits(Itoa(pid)), false), AfterPid(ps, pid);
    AfterPidReady(ps, pid);
    SubstKeepsMapped(ps, Pid, pid, false);
    NoneInLits(Itoa(pid), Pid);
    SubstRemoves(ps, Pid, Lits(Itoa(pid)), false);
    MappedFromAgainstMapping(once, after, pid);
  }

  lemma {:induction false} MappedFromAgainstMapping(once: seq<Piece>, after: seq<Piece>, pid: int)
    requires after == Subst(once, Pid, UNREPLACED, true)
    ensures var pattern := MappedFrom(after, pid, false);
      && (Occurrences(after, P) >= 2 ==> Count(pattern, '%') > Count(Mapped(once, pid), '%'))
      && (Occurrences(after, P) <= 1 ==>
            Count(pattern, 'i') == Count(Mapped(once, pid), 'i') + Occurrences(once, Pid))
      && (Occurrences(after, P) <= 1 && Occurrences(once, Pid) == 0 ==> pattern == Mapped(once, pid))
  {
    UnreplacedLetter(pid);
    if Occurrences(after, P) >= 2 {
      StayingPercents(after, pid, false);
      UnreplacedLetters(once, pid, '%', 0);
    } else {
      OnePMapped(after, pid, false);
      UnreplacedLetters(once, pid, 'i', 1);
      if Occurrences(once, Pid) == 0 {
        NothingToSubst(once, Pid, UNREPLACED, true);
      }
    }
  }

  /**
   * For every template whose literals fuse to no token, the fourteen successive replacements put every token as its
   * own glob if and only if no pid token stands twice.
   */
  lemma {:induction false} GlobPatternIsMappedIff(ps: seq<Piece>, pid: int)
    requires NoFusing(ps)
    ensures GlobPattern(Render(ps), pid) == Mapped(ps, pid) <==> OnePidToken(ps)
  {
    PatternAgainstMapping(ps, pid);
  }

  // ---------- the second theorem: the pattern matches every file the template stands for ----------

  /** Glob matching inside one path: `*` any run without a slash, `?` one character that is not a slash. */
  predicate Matches(pat: string, name: string)
    decreases |pat| + |name|
  {
    if pat == [] then name == []
    else if pat[0] == '*' then
      Matches(pat[1..], name) || (name != [] && name[0] != '/' && Matches(pat, name[1..]))
    else
      name != [] && (pat[0] == name[0] || (pat[0] == '?' && name[0] != '/')) && Matches(pat[1..], name[1..])
  }

  lemma {:induction false} MatchesAppend(p: string, x: string, q: string, y: string)
    requires Matches(p, x) && Matches(q, y)
    ensures Matches(p + q, x + y)
    decreases |p| + |x|
  {
    if p == [] {
      assert p + q == q && x + y == y;
    } else {
      assert (p + q)[0] == p[0] && (p + q)[1..] == p[1..] + q;
      if x != [] {
        assert (x + y)[0] == x[0] && (x + y)[1..] == x[1..] + y;
      }
      if p[0] == '*' {
        if Matches(p[1..], x) {
          MatchesAppend(p[1..], x, q, y);
        } else {
          MatchesAppend(p, x[1..], q, y);
        }
      } else {
        MatchesAppend(p[1..], x[1..], q, y);
      }
    }
  }

  predicate NoSlash(s: string) {
    '/' !in s
  }

  lemma {:induction false} StarMatches(s: string)
    requires NoSlash(s)
    ensures Matches("*", s)
    decreases |s|
  {
    assert "*"[1..] == [];
    if s != [] {
      assert s[0] in s;
      StarMatches(s[1..]);
    }
  }

  /** A string fits a pattern of question marks and literals character by character. */
  lemma {:induction false} WidthMatches(pat: string, s: string)
    requires |pat| == |s| && '*' !in pat
    requires forall i :: 0 <= i < |s| ==> pat[i] == s[i] || (pat[i] == '?' && s[i] != '/')
    ensures Matches(pat, s)
    decreases |s|
  {
    if s != [] {
      assert pat[0] in pat;
      WidthMatches(pat[1..], s[1..]);
    }
  }

  /** What the JVM may put for a token. */
  ghost predicate Expands(t: Token, pid: int, s: string) {
    NoSlash(s) &&
    match t
    case Pid => s == Itoa(pid)
    case P => s == Itoa(pid) || s == "pid" + Itoa(pid)
    case Seq => |s| == 3
    case Tick => true case Uid => true case Last => true
    case T => |s| == 19 && forall i :: 0 <= i < 19 && Glob(T, pid)[i] != '?' ==> s[i] == Glob(T, pid)[i]
    case Year4 => |s| == 4
    case _ => |s| == 2
  }

  /** A file name the template stands for. */
  ghost predicate Expansion(ps: seq<Piece>, pid: int, name: string)
    decreases |ps|
  {
    if ps == [] then name == []
    else match ps[0]
      case Lit(c) => name != [] && name[0] == c && Expansion(ps[1..], pid, name[1..])
      case Tok(t) => exists n :: 0 <= n <= |name| && Expands(t, pid, name[..n]) && Expansion(ps[1..], pid, name[n..])
  }

  lemma {:induction false} ItoaMatches(pid: int)
    ensures Matches(Itoa(pid), Itoa(pid))
  {
    WidthMatches(Itoa(pid), Itoa(pid));
  }

  lemma {:induction false} TokenMatches(t: Token, pid: int, s: string)
    requires Expands(t, pid, s)
    ensures Matches(Glob(t, pid), s)
  {
    match t
    case Pid => ItoaMatches(pid);
    case P =>
      var front := if s == Itoa(pid) then "" else "pid";
      assert s == front + Itoa(pid);
      StarMatches(front);
      ItoaMatches(pid);
      MatchesAppend("*", front, Itoa(pid), Itoa(pid));
    case Tick => StarMatches(s);
    case Uid => StarMatches(s);
    case Last => StarMatches(s);
    case Seq => AnyMatches("???", s);
    case Year4 => AnyMatches("????", s);
    case T =>
      assert forall i :: 0 <= i < |s| ==> s[i] in s;
      WidthMatches(Glob(t, pid), s);
    case _ => AnyMatches("??", s);
  }

  /** A pattern without stars matches nothing but the strings that fit it character by character. */
  lemma {:induction false} WidthMatchesOnly(pat: string, s: string)
    requires Matches(pat, s) && '*' !in pat
    ensures |pat| == |s| && forall i :: 0 <= i < |s| ==> pat[i] == s[i] || (pat[i] == '?' && s[i] != '/')
    decreases |pat|
  {
    if pat != [] {
      assert pat[0] in pat;
      WidthMatchesOnly(pat[1..], s[1..]);
      assert forall i :: 1 <= i < |s| ==> pat[i] == pat[1..][i - 1] && s[i] == s[1..][i - 1];
    }
  }

  lemma {:induction false} MatchesNoSlash(pat: string, s: string)
    requires Matches(pat, s) && '/' !in pat
    ensures NoSlash(s)
    decreases |pat| + |s|
  {
    if pat != [] {
      assert pat[0] in pat;
      if pat[0] == '*' && Matches(pat[1..], s) {
        MatchesNoSlash(pat[1..], s);
      } else if pat[0] == '*' {
        MatchesNoSlash(pat, s[1..]);
      } else {
        MatchesNoSlash(pat[1..], s[1..]);
      }
    }
  }

  /** The glob of a token other than %p matches exactly what the token may stand for; that of %t is a date's shape. */
  lemma {:induction false} TokenMatchesIff(t: Token, pid: int, s: string)
    requires t != P
    ensures Matches(Glob(t, pid), s) <==> Expands(t, pid, s)
  {
    if Expands(t, pid, s) {
      TokenMatches(t, pid, s);
    }
    if Matches(Glob(t, pid), s) {
      MatchesNoSlash(Glob(t, pid), s);
      if t !in {Tick, Uid, Last} {
        WidthMatchesOnly(Glob(t, pid), s);
        assert t == Pid ==> s == Itoa(pid);
      }
    }
  }

  /** A name that `*` matches and the glob of %t refuses. */
  lemma {:induction false} DateIsNotAnything(pid: int)
    ensures Matches("*", "1") && !Matches(Glob(T, pid), "1")
  {
    StarMatches("1");
    TokenMatchesIff(T, pid, "1");
  }

  lemma {:induction false} AnyMatches(pat: string, s: string)
    requires |pat| == |s| && NoSlash(s) && forall i :: 0 <= i < |pat| ==> pat[i] == '?'
    ensures Matches(pat, s)
  {
    assert forall i :: 0 <= i < |s| ==> s[i] in s;
    WidthMatches(pat, s);
  }

  lemma {:induction false} LiteralMatches(c: char, pat: string, name: string)
    requires name != [] && name[0] == c && Matches(pat, name[1..])
    ensures Matches([c] + pat, name)
  {
    assert ([c] + pat)[1..] == pat;
  }

  /** No literal is a glob metacharacter other than a star or a question mark, which match themselves too. */
  ghost predicate Plain(ps: seq<Piece>) {
    forall i :: 0 <= i < |ps| && ps[i].Lit? ==> ps[i].c !in {'[', ']', '{', '}', '\\'}
  }

  lemma {:induction false} MatchesInTwo(p: string, q: string, name: string, n: nat)
    requires n <= |name| && Matches(p, name[..n]) && Matches(q, name[n..])
    ensures Matches(p + q, name)
  {
    MatchesAppend(p, name[..n], q, name[n..]);
    assert name[..n] + name[n..] == name;
  }

  lemma {:induction false} MappedMatches(ps: seq<Piece>, pid: int, name: string)
    requires Plain(ps) && Expansion(ps, pid, name)
    ensures Matches(Mapped(ps, pid), name)
    decreases |ps|
  {
    if ps != [] {
      var rest := ps[1..];
      assert Plain(rest);
      match ps[0]
      case Lit(c) =>
        MappedMatches(rest, pid, name[1..]);
        LiteralMatches(c, Mapped(rest, pid), name);
      case Tok(t) =>
        var n :| 0 <= n <= |name| && Expands(t, pid, name[..n]) && Expansion(rest, pid, name[n..]);
        TokenMatches(t, pid, name[..n]);
        MappedMatches(rest, pid, name[n..]);
        MatchesInTwo(Glob(t, pid), Mapped(rest, pid), name, n);
    }
  }

  // ---------- a file name that a repeated pid token loses ----------

  /** One thing a token may stand for, without letters. */
  function Sample(t: Token, pid: int): (s: string)
    ensures forall i :: 0 <= i < |s| ==> s[i] in {'-', '_'} || '0' <= s[i] <= '9'
  {
    match t
    case Pid => Itoa(pid) case P => Itoa(pid)
    case Tick => "" case Uid => "" case Last => ""
    case Seq => "000"
    case T => "0000-00-00_00-00-00"
    case Year4 => "0000"
    case _ => "00"
  }

  function SampleName(ps: seq<Piece>, pid: int): string
  {
    if ps == [] then []
    else (match ps[0] case Lit(c) => [c] case Tok(t) => Sample(t, pid)) + SampleName(ps[1..], pid)
  }

  lemma {:induction false} SampleExpands(ps: seq<Piece>, pid: int)
    ensures Expansion(ps, pid, SampleName(ps, pid))
    decreases |ps|
  {
    if ps != [] {
      var name, rest := SampleName(ps, pid), SampleName(ps[1..], pid);
      SampleExpands(ps[1..], pid);
      match ps[0]
      case Lit(c) =>
        assert name[1..] == rest;
      case Tok(t) =>
        var n := |Sample(t, pid)|;
        assert Expands(t, pid, Sample(t, pid));
        assert name[..n] == Sample(t, pid) && name[n..] == rest;
    }
  }

  /** A foreign character stands in the sample name as often as in the mapping: in the literals. */
  lemma {:induction false} SampleCounts(ps: seq<Piece>, pid: int, c: char)
    requires Foreign(c)
    ensures Count(SampleName(ps, pid), c) == Count(Mapped(ps, pid), c)
    decreases |ps|
  {
    if ps != [] {
      SampleCounts(ps[1..], pid, c);
      match ps[0]
      case Lit(d) =>
        CountAppend([d], SampleName(ps[1..], pid), c);
        CountAppend([d], Mapped(ps[1..], pid), c);
      case Tok(t) =>
        CountNone(Sample(t, pid), c);
        GlobForeign(t, pid, c);
        CountAppend(Sample(t, pid), SampleName(ps[1..], pid), c);
        CountAppend(Glob(t, pid), Mapped(ps[1..], pid), c);
    }
  }

  /** A name holds every character that a pattern asks for. */
  lemma {:induction false} MatchesCounts(pat: string, name: string, c: char)
    requires Matches(pat, name) && c !in {'*', '?'}
    ensures Count(pat, c) <= Count(name, c)
    decreases |pat| + |name|
  {
    if pat != [] {
      if pat[0] == '*' && Matches(pat[1..], name) {
        MatchesCounts(pat[1..], name, c);
      } else if pat[0] == '*' {
        MatchesCounts(pat, name[1..], c);
      } else {
        MatchesCounts(pat[1..], name[1..], c);
      }
    }
  }

  /** The computed pattern matches every expansion of the template if and only if no pid token stands twice. */
  lemma {:induction false} PatternMatchesExpansionsIff(ps: seq<Piece>, pid: int)
    requires NoFusing(ps) && Plain(ps)
    ensures (forall name :: Expansion(ps, pid, name) ==> Matches(GlobPattern(Render(ps), pid), name))
       <==> OnePidToken(ps)
  {
    PatternAgainstMapping(ps, pid);
    var pattern := GlobPattern(Render(ps), pid);
    if OnePidToken(ps) {
      forall name | Expansion(ps, pid, name) ensures Matches(pattern, name) {
        MappedMatches(ps, pid, name);
      }
    } else {
      SampleRefused(ps, pid, pattern);
      SampleExpands(ps, pid);
    }
  }

  lemma {:induction false} SampleRefused(ps: seq<Piece>, pid: int, pattern: string)
    requires TooMany(pattern, Mapped(ps, pid))
    ensures !Matches(pattern, SampleName(ps, pid))
  {
    var name := SampleName(ps, pid);
    SampleCounts(ps, pid, '%');
    SampleCounts(ps, pid, 'i');
    if Matches(pattern, name) {
      MatchesCounts(pattern, name, '%');
      MatchesCounts(pattern, name, 'i');
    }
  }

  // ---------- every path is a template ----------

  /** The token a text begins with, the longer one where two fit. */
  function TokenAt(s: string, ts: seq<Token>): Option<Token>
    decreases |ts|
  {
    if ts == [] then None else if Text(ts[0]) <= s then Some(ts[0]) else TokenAt(s, ts[1..])
  }

  /** A path cut into literals and tokens, for the tokens `ts` in their order. */
  function ParseBy(s: string, ts: seq<Token>): seq<Piece>
    decreases |s|
  {
    if s == [] then []
    else match TokenAt(s, ts)
      case Some(t) => if |Text(t)| <= |s| then [Tok(t)] + ParseBy(s[|Text(t)|..], ts) else []
      case None => [Lit(s[0])] + ParseBy(s[1..], ts)
  }

  function Parse(s: string): seq<Piece>
  {
    ParseBy(s, TOKENS)
  }

  lemma {:induction false} TokenAtIs(s: string, ts: seq<Token>)
    ensures match TokenAt(s, ts)
      case None => forall k :: 0 <= k < |ts| ==> !(Text(ts[k]) <= s)
      case Some(t) =>
        && Text(t) <= s
        && exists k :: 0 <= k < |ts| && ts[k] == t && forall j :: 0 <= j < k ==> !(Text(ts[j]) <= s)
    decreases |ts|
  {
    if ts != [] && !(Text(ts[0]) <= s) {
      TokenAtIs(s, ts[1..]);
      assert forall k :: 1 <= k < |ts| ==> ts[k] == ts[1..][k - 1];
      if TokenAt(s, ts).Some? {
        var t := TokenAt(s, ts).value;
        var k :| 0 <= k < |ts[1..]| && ts[1..][k] == t && forall j :: 0 <= j < k ==> !(Text(ts[1..][j]) <= s);
        assert ts[k + 1] == t;
        forall j | 0 <= j < k + 1 ensures !(Text(ts[j]) <= s) {
          assert j > 0 ==> ts[j] == ts[1..][j - 1];
        }
      }
    }
  }

  /** A token that is found is one that is there, and no longer one is. */
  lemma {:induction false} TokenFound(s: string, t: Token, ts: seq<Token>)
    requires ts == TOKENS
    ensures TokenAt(s, ts) == None ==> !(Text(t) <= s)
    ensures TokenAt(s, ts).Some? ==> Text(TokenAt(s, ts).value) <= s
    ensures TokenAt(s, ts) == Some(P) ==> !(Text(Pid) <= s)
    ensures TokenAt(s, ts) == Some(T) ==> !(Text(Tick) <= s)
  {
    TokenAtIs(s, ts);
    assert ts[Rank(t)] == t && ts[Rank(Pid)] == Pid && ts[Rank(Tick)] == Tick;
    forall k | 0 <= k < |ts| ensures Rank(ts[k]) == k {
      RankOf(k);
    }
  }

  /** Literals that follow are text that follows. */
  lemma {:induction false} FollowsText(ps: seq<Piece>, text: string)
    requires Follows(ps, text)
    ensures text <= Render(ps)
    decreases |text|
  {
    if text != [] {
      assert forall i :: 0 <= i < |text| - 1 ==> ps[1..][i] == ps[i + 1] && text[1..][i] == text[i + 1];
      FollowsText(ps[1..], text[1..]);
      assert Render(ps) == [text[0]] + Render(ps[1..]) && [text[0]] + text[1..] == text;
    }
  }

  lemma {:induction false} Longer(s: string, front: string, rest: string, ps: seq<Piece>, more: string)
    requires s == front + rest && Render(ps) == rest && Follows(ps, more)
    ensures front + more <= s
  {
    FollowsText(ps, more);
    assert s[..|front| + |more|] == front + more;
  }

  /** Every path is the text of a template whose literals fuse to no token. */
  lemma {:induction false} ParseRenders(s: string, ts: seq<Token>)
    requires ts == TOKENS
    ensures Render(ParseBy(s, ts)) == s && NoFusing(ParseBy(s, ts))
    decreases |s|
  {
    if s != [] {
      TokenFound(s, Pid, ts);
      match TokenAt(s, ts)
      case Some(t) =>
        var rest := s[|Text(t)|..];
        ParseRenders(rest, ts);
        ParsedToken(s, t, rest, ParseBy(rest, ts));
      case None =>
        ParseRenders(s[1..], ts);
        forall u ensures !(Text(u) <= s) {
          TokenFound(s, u, ts);
        }
        ParsedLiteral(s, s[1..], ParseBy(s[1..], ts));
    }
  }

  lemma {:induction false} NoFusingOne(p: Piece, ps: seq<Piece>)
    requires NoFusing(ps) && (p == Lit('%') ==> !Completes(ps))
    requires (p == Tok(P) ==> !Follows(ps, "id")) && (p == Tok(T) ==> !Follows(ps, "ick"))
    ensures NoFusing([p] + ps)
  {
    assert ([p] + ps)[1..] == ps;
  }

  lemma {:induction false} NotLongerText(s: string, t: Token, u: Token, rest: string, ps: seq<Piece>, more: string)
    requires s == Text(t) + rest && Render(ps) == rest && Text(u) == Text(t) + more && !(Text(u) <= s)
    ensures !Follows(ps, more)
  {
    if Follows(ps, more) {
      Longer(s, Text(t), rest, ps, more);
    }
  }

  lemma {:induction false} ParsedToken(s: string, t: Token, rest: string, ps: seq<Piece>)
    requires (t == P ==> !(Text(Pid) <= s)) && (t == T ==> !(Text(Tick) <= s))
    requires Text(t) <= s && rest == s[|Text(t)|..] && Render(ps) == rest && NoFusing(ps)
    ensures Render([Tok(t)] + ps) == s && NoFusing([Tok(t)] + ps)
  {
    assert s == Text(t) + rest;
    RenderOne(Tok(t), ps);
    if t == P {
      NotLongerText(s, P, Pid, rest, ps, "id");
    } else if t == T {
      NotLongerText(s, T, Tick, rest, ps, "ick");
    }
    NoFusingOne(Tok(t), ps);
  }

  lemma {:induction false} ParsedLiteral(s: string, rest: string, ps: seq<Piece>)
    requires s != [] && forall u :: !(Text(u) <= s)
    requires rest == s[1..] && Render(ps) == rest && NoFusing(ps)
    ensures Render([Lit(s[0])] + ps) == s && NoFusing([Lit(s[0])] + ps)
  {
    assert s == [s[0]] + rest;
    RenderOne(Lit(s[0]), ps);
    if s[0] == '%' {
      forall u ensures !Follows(ps, Text(u)[1..]) {
        NothingFollows(s, rest, ps, u);
      }
    }
    NoFusingOne(Lit(s[0]), ps);
  }

  lemma {:induction false} NothingFollows(s: string, rest: string, ps: seq<Piece>, u: Token)
    requires s == "%" + rest && Render(ps) == rest && !(Text(u) <= s)
    ensures !Follows(ps, Text(u)[1..])
  {
    assert "%" + Text(u)[1..] == Text(u);
    if Follows(ps, Text(u)[1..]) {
      Longer(s, "%", rest, ps, Text(u)[1..]);
    }
  }

  /** For every path: the pattern is the token-by-token mapping if and only if no pid token stands twice. */
  lemma {:induction false} PathIsMappedIff(gcPath: string, pid: int)
    ensures GlobPattern(gcPath, pid) == Mapped(Parse(gcPath), pid) <==> OnePidToken(Parse(gcPath))
  {
    ParseRenders(gcPath, TOKENS);
    GlobPatternIsMappedIff(Parse(gcPath), pid);
  }

  /** For every path without brackets, braces or backslashes: it matches all expansions under the same condition. */
  lemma {:induction false} PathMatchesExpansionsIff(gcPath: string, pid: int)
    requires Plain(Parse(gcPath))
    ensures (forall name :: Expansion(Parse(gcPath), pid, name) ==> Matches(GlobPattern(gcPath, pid), name))
       <==> OnePidToken(Parse(gcPath))
  {
    ParseRenders(gcPath, TOKENS);
    PatternMatchesExpansionsIff(Parse(gcPath), pid);
  }
}
