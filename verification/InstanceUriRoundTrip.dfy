/** Printing and parsing undo each other, on exactly the instances that parsing can yield. A printed
    URI is found again unless a greedier match lies in it: one whose project, region or cluster takes
    in a word that comes a second time. */
module InstanceUriRoundTrip {
  import opened InstanceUri
  import opened Wrappers

  // ---------- a match is a printed URI ----------

  lemma URIOfPieces(ws: seq<string>)
    requires |ws| == 9
    requires ws[0] == "projects/" && ws[3] == "/locations/" && ws[5] == "/clusters/" && ws[7] == "/instances/"
    ensures Concat(ws) == URI(FromPieces(ws))
  {
    ConcatOfNine(ws);
    assert ws[0] + ws[1] + ws[2] == "projects/" + (ws[1] + ws[2]);
  }

  lemma MatchIsURI(ws: seq<string>, s: string)
    requires Fits(PATTERN, ws, s)
    ensures Concat(ws) == URI(FromPieces(ws)) && URI(FromPieces(ws)) <= s
  {
    assert Accepts(PATTERN[0], ws[0]) && Accepts(PATTERN[3], ws[3]);
    assert Accepts(PATTERN[5], ws[5]) && Accepts(PATTERN[7], ws[7]);
    URIOfPieces(ws);
  }

  lemma ConcatStep(front: string, ws: seq<string>, k: nat)
    requires k < |ws|
    ensures front + Concat(ws[k..]) == front + ws[k] + Concat(ws[k + 1..])
  {
    assert ws[k..][1..] == ws[k + 1..];
  }

  lemma ConcatOfNine(ws: seq<string>)
    requires |ws| == 9
    ensures Concat(ws) == ws[0] + ws[1] + ws[2] + ws[3] + ws[4] + ws[5] + ws[6] + ws[7] + ws[8]
  {
    var w2 := ws[0] + ws[1] + ws[2];
    var w5 := w2 + ws[3] + ws[4] + ws[5];
    ConcatThree("", ws, 0);
    ConcatThree(w2, ws, 3);
    ConcatThree(w5, ws, 6);
    assert ws[0..] == ws && "" + ws[0] == ws[0] && "" + Concat(ws) == Concat(ws);
    assert ws[9..] == [];
  }

  lemma ConcatThree(front: string, ws: seq<string>, k: nat)
    requires k + 3 <= |ws|
    ensures front + Concat(ws[k..]) == front + ws[k] + ws[k + 1] + ws[k + 2] + Concat(ws[k + 3..])
  {
    ConcatStep(front, ws, k);
    ConcatStep(front + ws[k], ws, k + 1);
    ConcatStep(front + ws[k] + ws[k + 1], ws, k + 2);
  }

  /** Whatever ParseInstURI accepts holds, somewhere, the URI it prints for it. */
  lemma ParsedURIOccurs(s: string) returns (start: nat)
    requires ParseInstURI(s).Some?
    ensures start <= |s| && URI(ParseInstURI(s).value) <= s[start..]
  {
    var (j, ws) := Find(PATTERN, s, 0).value;
    FindIsLeftmostFirst(PATTERN, s, j, ws);
    MatchIsURI(ws, s[j..]);
    start := j;
  }

  lemma AcceptsPattern(s: string)
    ensures ParseInstURI(s).Some? <==> exists j, ws :: 0 <= j <= |s| && Fits(PATTERN, ws, s[j..])
  {
    FindIsLeftmostFirst(PATTERN, s, 0, []);
  }

  /** Parsing is stable: the URI printed for a parsed instance parses to that instance, even when
      its groups swallowed slashes. */
  lemma ParseIsStable(s: string)
    requires ParseInstURI(s).Some?
    ensures ParseInstURI(URI(ParseInstURI(s).value)) == ParseInstURI(s)
  {
    var (start, ws) := Find(PATTERN, s, 0).value;
    FindIsLeftmostFirst(PATTERN, s, start, ws);
    MatchIsURI(ws, s[start..]);
    var t := Concat(ws);
    assert t[0..] == t;
    forall vs | Fits(PATTERN, vs, t[0..]) ensures Preferred(ws, vs) {
      assert Fits(PATTERN, vs, s[start..]);
    }
    assert IsLeftmostFirst(PATTERN, t, 0, ws);
    FindIsLeftmostFirst(PATTERN, t, 0, ws);
  }

  // ---------- well-formed instances ----------

  /** Everything before the first colon. */
  function BeforeColon(s: string): string {
    if s == "" || s[0] == ':' then "" else [s[0]] + BeforeColon(s[1..])
  }

  lemma {:induction false} BeforeColonOfParts(a: string, b: string)
    requires ':' !in a && (b == "" || b[0] == ':')
    ensures BeforeColon(a + b) == a
  {
    if a == "" {
      assert a + b == b;
    } else {
      assert (a + b)[1..] == a[1..] + b;
      BeforeColonOfParts(a[1..], b);
    }
  }

  lemma {:induction false} BeforeColonIsPrefix(s: string)
    ensures BeforeColon(s) <= s && ':' !in BeforeColon(s)
  {
    if s != "" && s[0] != ':' {
      BeforeColonIsPrefix(s[1..]);
    }
  }

  /** A project is one colon-free part, or two with a colon between them ("google.com:PROJECT"). */
  predicate ValidProject(s: string)
  {
    BeforeColonIsPrefix(s);
    Accepts(Plus, BeforeColon(s)) && Accepts(OptColonPlus, s[|BeforeColon(s)|..])
  }

  predicate Valid(i: InstanceURI) {
    ValidProject(i.project) && Accepts(Plus, i.region) && Accepts(Plus, i.cluster) && Accepts(Plus, i.name)
  }

  // ---------- the format in plain words ----------

  /** Nonempty and free of colons. */
  predicate Plain(s: string) {
    s != "" && ':' !in s
  }

  /** A project is plain, or domain-scoped: two plain parts with a colon between them. */
  ghost predicate IsProject(p: string) {
    Plain(p) || exists a, b :: Plain(a) && Plain(b) && p == a + ":" + b
  }

  ghost predicate Formatted(i: InstanceURI) {
    IsProject(i.project) && Plain(i.region) && Plain(i.cluster) && Plain(i.name)
  }

  lemma TwoPartProject(a: string, b: string)
    requires Plain(a) && Plain(b)
    ensures ValidProject(a + ":" + b)
  {
    assert a + ":" + b == a + (":" + b);
    BeforeColonOfParts(a, ":" + b);
    assert (a + ":" + b)[|a|..] == ":" + b && (":" + b)[1..] == b;
  }

  lemma PlainProject(p: string)
    requires Plain(p)
    ensures ValidProject(p)
  {
    assert p + "" == p;
    BeforeColonOfParts(p, "");
  }

  /** The optional group of the pattern admits exactly those projects. */
  lemma ValidIsFormatted(i: InstanceURI)
    ensures Valid(i) <==> Formatted(i)
  {
    if ValidProject(i.project) {
      BeforeColonIsPrefix(i.project);
      var a := BeforeColon(i.project);
      var b := i.project[|a|..];
      assert i.project == a + b;
      if b != "" {
        assert b == ":" + b[1..] && i.project == a + ":" + b[1..];
        assert Plain(a) && Plain(b[1..]);
      }
    }
    if Plain(i.project) {
      PlainProject(i.project);
    } else if a, b :| Plain(a) && Plain(b) && i.project == a + ":" + b {
      TwoPartProject(a, b);
    }
  }

  function Pieces(i: InstanceURI): seq<string>
    requires Valid(i)
  {
    BeforeColonIsPrefix(i.project);
    var a := BeforeColon(i.project);
    ["projects/", a, i.project[|a|..], "/locations/", i.region, "/clusters/", i.cluster, "/instances/", i.name]
  }

  lemma PiecesFit(i: InstanceURI)
    requires Valid(i)
    ensures Fits(PATTERN, Pieces(i), URI(i)) && FromPieces(Pieces(i)) == i
  {
    BeforeColonIsPrefix(i.project);
    var ws := Pieces(i);
    assert ws[1] + ws[2] == i.project;
    URIOfPieces(ws);
    assert Concat(ws) == URI(i);
  }

  /** What a match yields is well-formed, and its pieces are determined by the instance. */
  lemma PiecesOfMatch(ws: seq<string>, s: string)
    requires Fits(PATTERN, ws, s)
    ensures Valid(FromPieces(ws)) && Pieces(FromPieces(ws)) == ws
  {
    forall k | 0 <= k < |PATTERN| ensures Accepts(PATTERN[k], ws[k]) {
    }
    assert Accepts(PATTERN[0], ws[0]) && Accepts(PATTERN[1], ws[1]) && Accepts(PATTERN[2], ws[2]);
    assert Accepts(PATTERN[3], ws[3]) && Accepts(PATTERN[4], ws[4]) && Accepts(PATTERN[5], ws[5]);
    assert Accepts(PATTERN[6], ws[6]) && Accepts(PATTERN[7], ws[7]) && Accepts(PATTERN[8], ws[8]);
    BeforeColonOfParts(ws[1], ws[2]);
    assert (ws[1] + ws[2])[|ws[1]|..] == ws[2];
  }

  // ---------- words and parts ----------

  const WORDS: seq<string> := ["/locations/", "/clusters/", "/instances/"]

  function Parts(i: InstanceURI): seq<string> {
    [i.region, i.cluster, i.name]
  }

  /** Each word followed by its part. */
  function Tail(words: seq<string>, parts: seq<string>): string
    requires |words| == |parts|
  {
    if words == [] then "" else words[0] + parts[0] + Tail(words[1..], parts[1..])
  }

  /** `t` begins with the words in turn, each followed by at least one character. */
  predicate Leads(words: seq<string>, t: string) {
    words == [] ||
    (words[0] <= t && exists k :: |words[0]| < k <= |t| && Leads(words[1..], t[k..]))
  }

  /** The words lead again somewhere after the beginning of `t`. */
  predicate Recurs(words: seq<string>, t: string) {
    exists j :: 0 < j <= |t| && Leads(words, t[j..])
  }

  /** No tail holds its own words a second time. */
  predicate NoneRecurs(words: seq<string>, parts: seq<string>)
    requires |words| == |parts|
  {
    words == [] || (!Recurs(words, Tail(words, parts)) && NoneRecurs(words[1..], parts[1..]))
  }

  /** After the project no second "/locations/", "/clusters/" and "/instances/" follow in that order,
      after the region no second "/clusters/" and "/instances/", after the cluster no second
      "/instances/", each with something behind it. */
  predicate Unrepeated(i: InstanceURI) {
    NoneRecurs(WORDS, Parts(i))
  }

  function TailPattern(words: seq<string>): seq<Elem> {
    if words == [] then [] else [Lit(words[0]), Plus] + TailPattern(words[1..])
  }

  function TailPieces(words: seq<string>, parts: seq<string>): seq<string>
    requires |words| == |parts|
  {
    if words == [] then [] else [words[0], parts[0]] + TailPieces(words[1..], parts[1..])
  }

  lemma {:induction false} TailShape(words: seq<string>, parts: seq<string>)
    requires |words| == |parts|
    ensures |TailPattern(words)| == |TailPieces(words, parts)| == 2 * |words|
  {
    if words != [] {
      TailShape(words[1..], parts[1..]);
    }
  }

  // The first word and its part, taken off.
  lemma FitsWord(words: seq<string>, vs: seq<string>, t: string)
    requires words != [] && |vs| == |TailPattern(words)|
    ensures |vs| >= 2
    ensures Fits(TailPattern(words), vs, t) <==>
            && vs[0] == words[0] && vs[0] + vs[1] <= t && Accepts(Plus, vs[1])
            && Fits(TailPattern(words[1..]), vs[2..], t[|vs[0]| + |vs[1]|..])
  {
    var p := TailPattern(words);
    assert p[1..][1..] == TailPattern(words[1..]) && vs[1..][1..] == vs[2..];
    FitsCons(p, vs, t);
    if vs[0] <= t {
      FitsCons(p[1..], vs[1..], t[|vs[0]|..]);
      assert t == vs[0] + t[|vs[0]|..];
      assert vs[1] <= t[|vs[0]|..] <==> vs[0] + vs[1] <= t;
      if vs[0] + vs[1] <= t {
        assert t[|vs[0]|..][|vs[1]|..] == t[|vs[0]| + |vs[1]|..];
      }
    }
  }

  // The same the other way round: a piece put before a match of the rest.
  lemma PieceBefore(e: Elem, w: string, p: seq<Elem>, vs: seq<string>, u: string)
    requires Accepts(e, w) && Fits(p, vs, u)
    ensures Fits([e] + p, [w] + vs, w + u)
  {
    assert ([e] + p)[1..] == p && ([w] + vs)[1..] == vs && (w + u)[|w|..] == u;
    FitsCons([e] + p, [w] + vs, w + u);
  }

  lemma WordBefore(words: seq<string>, x: string, vs: seq<string>, u: string)
    requires words != [] && Accepts(Plus, x) && Fits(TailPattern(words[1..]), vs, u)
    ensures Fits(TailPattern(words), [words[0], x] + vs, words[0] + x + u)
  {
    WordAndPartBefore(words[0], x, TailPattern(words[1..]), vs, u);
  }

  lemma WordAndPartBefore(w: string, x: string, p: seq<Elem>, vs: seq<string>, u: string)
    requires Accepts(Plus, x) && Fits(p, vs, u)
    ensures Fits([Lit(w), Plus] + p, [w, x] + vs, w + x + u)
  {
    assert [Lit(w), Plus] + p == [Lit(w)] + ([Plus] + p);
    assert [w, x] + vs == [w] + ([x] + vs);
    assert w + x + u == w + (x + u);
    PieceBefore(Plus, x, p, vs, u);
    PieceBefore(Lit(w), w, [Plus] + p, [x] + vs, x + u);
  }

  lemma {:induction false} FitLeads(words: seq<string>, vs: seq<string>, t: string)
    requires Fits(TailPattern(words), vs, t)
    ensures Leads(words, t)
  {
    if words != [] {
      FitsWord(words, vs, t);
      FitLeads(words[1..], vs[2..], t[|vs[0]| + |vs[1]|..]);
    }
  }

  lemma {:induction false} LeadFits(words: seq<string>, t: string) returns (vs: seq<string>)
    requires Leads(words, t) && ':' !in t
    ensures Fits(TailPattern(words), vs, t)
  {
    vs := [];
    if words != [] {
      var k :| |words[0]| < k <= |t| && Leads(words[1..], t[k..]);
      var x := t[|words[0]|..k];
      var rest := LeadFits(words[1..], t[k..]);
      WordBefore(words, x, rest, t[k..]);
      assert t == words[0] + x + t[k..];
      vs := [words[0], x] + rest;
    }
  }

  lemma {:induction false} TailColonFree(words: seq<string>, parts: seq<string>)
    requires |words| == |parts|
    requires forall k :: 0 <= k < |words| ==> ':' !in words[k] && ':' !in parts[k]
    ensures ':' !in Tail(words, parts)
  {
    if words != [] {
      TailColonFree(words[1..], parts[1..]);
    }
  }

  // ---------- which way to match the tail is preferred ----------

  predicate WellFormed(words: seq<string>, parts: seq<string>) {
    && |words| == |parts|
    && (forall k :: 0 <= k < |words| ==> ':' !in words[k])
    && (forall k :: 0 <= k < |parts| ==> Accepts(Plus, parts[k]))
  }

  lemma TwoPreferred(ws: seq<string>, vs: seq<string>)
    requires |ws| == |vs| >= 2 && |ws[0]| == |vs[0]|
    ensures Preferred(ws, vs) <==>
            |ws[1]| > |vs[1]| || (|ws[1]| == |vs[1]| && Preferred(ws[2..], vs[2..]))
  {
    assert ws[1..][1..] == ws[2..] && vs[1..][1..] == vs[2..];
  }

  // The parts are the preferred ones if no tail after the first recurs.
  lemma {:induction false} BestIfNoneRecurs(words: seq<string>, parts: seq<string>, vs: seq<string>)
    requires WellFormed(words, parts) && (words != [] ==> NoneRecurs(words[1..], parts[1..]))
    requires Fits(TailPattern(words), vs, Tail(words, parts))
    ensures |TailPieces(words, parts)| == |vs| && Preferred(TailPieces(words, parts), vs)
  {
    TailShape(words, parts);
    if words != [] {
      var t, rest, ws := Tail(words, parts), Tail(words[1..], parts[1..]), TailPieces(words, parts);
      FitsWord(words, vs, t);
      TwoPreferred(ws, vs);
      assert t == (words[0] + parts[0]) + rest;
      var extra := |vs[1]| - |parts[0]|;
      if extra >= 0 {
        assert t[|vs[0]| + |vs[1]|..] == rest[extra..];
        FitLeads(words[1..], vs[2..], rest[extra..]);
        assert extra == 0;
        assert rest[0..] == rest && ws[2..] == TailPieces(words[1..], parts[1..]);
        BestIfNoneRecurs(words[1..], parts[1..], vs[2..]);
      }
    }
  }

  lemma {:induction false} TailPiecesFit(words: seq<string>, parts: seq<string>)
    requires WellFormed(words, parts)
    ensures Fits(TailPattern(words), TailPieces(words, parts), Tail(words, parts))
  {
    TailShape(words, parts);
    if words != [] {
      TailPiecesFit(words[1..], parts[1..]);
      WordBefore(words, parts[0], TailPieces(words[1..], parts[1..]), Tail(words[1..], parts[1..]));
    }
  }

  // A tail that recurs gives a way to match that takes more for the part before it.
  lemma BetterAtOnce(words: seq<string>, parts: seq<string>, j: nat) returns (vs: seq<string>)
    requires WellFormed(words, parts) && words != []
    requires 0 < j <= |Tail(words[1..], parts[1..])| && Leads(words[1..], Tail(words[1..], parts[1..])[j..])
    ensures Fits(TailPattern(words), vs, Tail(words, parts))
    ensures |vs| > 1 && vs[0] == words[0] && |vs[1]| > |parts[0]|
  {
    var rest := Tail(words[1..], parts[1..]);
    TailColonFree(words[1..], parts[1..]);
    var x := parts[0] + rest[..j];
    var others := LeadFits(words[1..], rest[j..]);
    WordBefore(words, x, others, rest[j..]);
    Regroup(words[0], parts[0], rest, j);
    vs := [words[0], x] + others;
  }

  lemma {:induction false} BetterIfRecurs(words: seq<string>, parts: seq<string>) returns (vs: seq<string>)
    requires WellFormed(words, parts) && words != [] && !NoneRecurs(words[1..], parts[1..])
    ensures Fits(TailPattern(words), vs, Tail(words, parts))
    ensures |TailPieces(words, parts)| == |vs| && !Preferred(TailPieces(words, parts), vs)
  {
    var rest := Tail(words[1..], parts[1..]);
    TailShape(words, parts);
    if Recurs(words[1..], rest) {
      var j :| 0 < j <= |rest| && Leads(words[1..], rest[j..]);
      vs := BetterAtOnce(words, parts, j);
    } else {
      var others := BetterIfRecurs(words[1..], parts[1..]);
      WordBefore(words, parts[0], others, rest);
      vs := [words[0], parts[0]] + others;
      assert vs[2..] == others;
    }
    TwoPreferred(TailPieces(words, parts), vs);
  }

  // ---------- the project before the tail ----------

  function URITail(i: InstanceURI): string {
    Tail(WORDS, Parts(i))
  }

  lemma TailStep(w: string, x: string, words: seq<string>, parts: seq<string>)
    requires |words| == |parts|
    ensures TailPattern([w] + words) == [Lit(w), Plus] + TailPattern(words)
    ensures TailPieces([w] + words, [x] + parts) == [w, x] + TailPieces(words, parts)
    ensures Tail([w] + words, [x] + parts) == w + x + Tail(words, parts)
  {
    assert ([w] + words)[1..] == words && ([x] + parts)[1..] == parts;
  }

  lemma TailOfThree(i: InstanceURI)
    ensures TailPattern(WORDS) == PATTERN[3..]
    ensures TailPieces(WORDS, Parts(i)) == [WORDS[0], i.region, WORDS[1], i.cluster, WORDS[2], i.name]
    ensures URITail(i) == WORDS[0] + i.region + (WORDS[1] + i.cluster + (WORDS[2] + i.name))
  {
    var words, parts := [WORDS[1], WORDS[2]], [i.cluster, i.name];
    TailStep(WORDS[0], i.region, words, parts);
    TailStep(WORDS[1], i.cluster, [WORDS[2]], [i.name]);
    TailStep(WORDS[2], i.name, [], []);
    assert WORDS == [WORDS[0]] + words && Parts(i) == [i.region] + parts;
    assert words == [WORDS[1]] + [WORDS[2]] && parts == [i.cluster] + [i.name];
    assert [WORDS[2]] == [WORDS[2]] + [] && [i.name] == [i.name] + [];
  }

  lemma InOneString(a: string, b: string, c: string, d: string, e: string, f: string, g: string, h: string)
    ensures a + b + c + d + e + f + g + h == a + b + (c + d + (e + f + (g + h)))
  {
  }

  lemma PiecesAre(i: InstanceURI)
    requires Valid(i)
    ensures TailPieces(WORDS, Parts(i)) == Pieces(i)[3..]
    ensures URI(i) == "projects/" + i.project + URITail(i)
    ensures ':' !in URITail(i) && WellFormed(WORDS, Parts(i))
  {
    TailOfThree(i);
    InOneString("projects/", i.project, WORDS[0], i.region, WORDS[1], i.cluster, WORDS[2], i.name);
    TailColonFree(WORDS, Parts(i));
  }

  // The three pieces before the tail, taken off and put back.
  lemma FitsFront(vs: seq<string>, s: string)
    requires Fits(PATTERN, vs, s)
    ensures vs[0] == "projects/" && Accepts(Plus, vs[1]) && Accepts(OptColonPlus, vs[2])
    ensures vs[0] + (vs[1] + vs[2]) <= s
    ensures Fits(PATTERN[3..], vs[3..], s[|vs[0]| + |vs[1] + vs[2]|..])
  {
    FitsCons(PATTERN, vs, s);
    var s1 := s[|vs[0]|..];
    FitsCons(PATTERN[1..], vs[1..], s1);
    var s2 := s1[|vs[1]|..];
    assert PATTERN[1..][1..] == PATTERN[2..] && vs[1..][1..] == vs[2..];
    FitsCons(PATTERN[2..], vs[2..], s2);
    assert s2[|vs[2]|..] == s[|vs[0]| + |vs[1] + vs[2]|..];
    assert PATTERN[2..][1..] == PATTERN[3..] && vs[2..][1..] == vs[3..];
  }

  lemma FrontBefore(a: string, b: string, vs: seq<string>, u: string)
    requires Accepts(Plus, a) && Accepts(OptColonPlus, b) && Fits(PATTERN[3..], vs, u)
    ensures Fits(PATTERN, ["projects/", a, b] + vs, "projects/" + (a + b) + u)
  {
    PieceBefore(OptColonPlus, b, PATTERN[3..], vs, u);
    PieceBefore(Plus, a, [OptColonPlus] + PATTERN[3..], [b] + vs, b + u);
    PieceBefore(Lit("projects/"), "projects/", [Plus] + ([OptColonPlus] + PATTERN[3..]), [a] + ([b] + vs), a + (b + u));
    assert ["projects/", a, b] + vs == ["projects/"] + ([a] + ([b] + vs));
    assert "projects/" + (a + b) + u == "projects/" + (a + (b + u));
  }

  // A front that takes no more characters in all takes no more for its first piece.
  lemma FrontChoices(a: string, b: string, x: string, y: string, t: string)
    requires Accepts(Plus, a) && Accepts(OptColonPlus, b) && Accepts(Plus, x) && Accepts(OptColonPlus, y)
    requires x + y <= a + b + t && ':' !in t
    ensures |x| > |a| ==> |x + y| > |a + b|
  {
    assert b != "" ==> (a + b + t)[|a|] == ':';
    assert |x| > |a| ==> (x + y)[|a|] == x[|a|] != ':';
  }

  // Where the choice between two matches falls if they begin with the same literal.
  lemma PreferredFront(ws: seq<string>, vs: seq<string>)
    requires |ws| == |vs| >= 3 && |ws[0]| == |vs[0]|
    ensures Preferred(ws, vs) <==>
            || |ws[1]| > |vs[1]|
            || (|ws[1]| == |vs[1]| && |ws[2]| > |vs[2]|)
            || (|ws[1]| == |vs[1]| && |ws[2]| == |vs[2]| && Preferred(ws[3..], vs[3..]))
  {
    TwoPreferred(ws, vs);
    assert Preferred(ws[2..], vs[2..]) <==>
        |ws[2]| > |vs[2]| || (|ws[2]| == |vs[2]| && Preferred(ws[2..][1..], vs[2..][1..]));
    assert ws[2..][1..] == ws[3..] && vs[2..][1..] == vs[3..];
  }

  lemma WithoutFront(front: string, x: string, y: string, t: string)
    requires front + x <= front + y + t
    ensures x <= y + t
    ensures forall n :: |front + y| <= n <= |front + y + t| ==> (front + y + t)[n..] == t[n - |front + y|..]
  {
    assert (front + x)[|front|..] == x && (front + y + t)[|front|..] == y + t;
  }

  // Where a match ends its front, against where the project ends.
  lemma FrontOfMatch(i: InstanceURI, vs: seq<string>)
    requires Valid(i) && Fits(PATTERN, vs, URI(i))
    ensures vs[0] == "projects/" && (|vs[1]| > |Pieces(i)[1]| ==> |vs[1] + vs[2]| > |i.project|)
    ensures var extra := |vs[1] + vs[2]| - |i.project|;
            0 <= extra ==> extra <= |URITail(i)| && Fits(TailPattern(WORDS), vs[3..], URITail(i)[extra..])
  {
    var ws, t := Pieces(i), URITail(i);
    BeforeColonIsPrefix(i.project);
    TailOfThree(i);
    PiecesAre(i);
    FitsFront(vs, URI(i));
    assert i.project == ws[1] + ws[2];
    WithoutFront("projects/", vs[1] + vs[2], i.project, t);
    FrontChoices(ws[1], ws[2], vs[1], vs[2], t);
    var extra := |vs[1] + vs[2]| - |i.project|;
    assert extra >= 0 ==> URI(i)[|vs[0]| + |vs[1] + vs[2]|..] == t[extra..];
  }

  lemma BestIfUnrepeated(i: InstanceURI, vs: seq<string>)
    requires Valid(i) && Unrepeated(i) && Fits(PATTERN, vs, URI(i))
    ensures Preferred(Pieces(i), vs)
  {
    var ws, t := Pieces(i), URITail(i);
    FrontOfMatch(i, vs);
    PiecesAre(i);
    BeforeColonIsPrefix(i.project);
    assert i.project == ws[1] + ws[2];
    var extra := |vs[1] + vs[2]| - |i.project|;
    if extra >= 0 {
      FitLeads(WORDS, vs[3..], t[extra..]);
      assert extra == 0 && t[0..] == t;
      BestIfNoneRecurs(WORDS, Parts(i), vs[3..]);
    }
    PreferredFront(ws, vs);
  }

  lemma Regroup(front: string, x: string, t: string, j: nat)
    requires j <= |t|
    ensures front + (x + t[..j]) + t[j..] == front + x + t
  {
    assert t == t[..j] + t[j..];
  }

  // Colon-free text appended to a project lengthens its first piece, or its second if it has one.
  lemma LongerProject(i: InstanceURI, extra: string) returns (a: string, b: string)
    requires Valid(i) && extra != "" && ':' !in extra
    ensures Accepts(Plus, a) && Accepts(OptColonPlus, b) && a + b == i.project + extra
    ensures |a| > |Pieces(i)[1]| || (|a| == |Pieces(i)[1]| && |b| > |Pieces(i)[2]|)
  {
    BeforeColonIsPrefix(i.project);
    a, b := Pieces(i)[1], Pieces(i)[2];
    if b == "" {
      a := a + extra;
    } else {
      assert (b + extra)[1..] == b[1..] + extra;
      b := b + extra;
    }
  }

  lemma BetterProject(i: InstanceURI, j: nat) returns (vs: seq<string>)
    requires Valid(i) && 0 < j <= |URITail(i)| && Leads(WORDS, URITail(i)[j..])
    ensures Fits(PATTERN, vs, URI(i)) && !Preferred(Pieces(i), vs)
  {
    var t := URITail(i);
    PiecesAre(i);
    var others := LeadFits(WORDS, t[j..]);
    var a, b := LongerProject(i, t[..j]);
    Regroup("projects/", i.project, t, j);
    TailOfThree(i);
    FrontBefore(a, b, others, t[j..]);
    vs := ["projects/", a, b] + others;
    PreferredFront(Pieces(i), vs);
  }

  lemma BetterIfRepeated(i: InstanceURI) returns (vs: seq<string>)
    requires Valid(i) && !Unrepeated(i)
    ensures Fits(PATTERN, vs, URI(i)) && !Preferred(Pieces(i), vs)
  {
    TailOfThree(i);
    PiecesAre(i);
    if Recurs(WORDS, URITail(i)) {
      var j :| 0 < j <= |URITail(i)| && Leads(WORDS, URITail(i)[j..]);
      vs := BetterProject(i, j);
    } else {
      var ws := Pieces(i);
      var others := BetterIfRecurs(WORDS, Parts(i));
      BeforeColonIsPrefix(i.project);
      FrontBefore(ws[1], ws[2], others, URITail(i));
      vs := ["projects/", ws[1], ws[2]] + others;
      assert vs[3..] == others && ws[1] + ws[2] == i.project;
      PreferredFront(ws, vs);
    }
  }

  // ---------- the round trip ----------

  // An instance is found in its URI exactly if its own pieces are preferred to all others there.
  lemma FoundIffBest(i: InstanceURI)
    ensures ParseInstURI(URI(i)) == Some(i) <==>
            Valid(i) && forall vs :: Fits(PATTERN, vs, URI(i)) ==> Preferred(Pieces(i), vs)
  {
    var s := URI(i);
    assert s[0..] == s;
    if ParseInstURI(s) == Some(i) {
      var (start, ws) := Find(PATTERN, s, 0).value;
      FindIsLeftmostFirst(PATTERN, s, start, ws);
      PiecesOfMatch(ws, s[start..]);
      PiecesFit(i);
    }
    if Valid(i) && forall vs :: Fits(PATTERN, vs, s) ==> Preferred(Pieces(i), vs) {
      PiecesFit(i);
      FindIsLeftmostFirst(PATTERN, s, 0, Pieces(i));
    }
  }

  lemma AcceptedHoldsURI(s: string) returns (pre: string, i: InstanceURI, post: string)
    requires ParseInstURI(s).Some?
    ensures Formatted(i) && s == pre + URI(i) + post
  {
    var (start, ws) := Find(PATTERN, s, 0).value;
    FindIsLeftmostFirst(PATTERN, s, start, ws);
    MatchIsURI(ws, s[start..]);
    PiecesOfMatch(ws, s[start..]);
    i := FromPieces(ws);
    ValidIsFormatted(i);
    pre, post := s[..start], s[start..][|URI(i)|..];
    InThree(s, start, URI(i));
  }

  lemma InThree(s: string, start: nat, u: string)
    requires start <= |s| && u <= s[start..]
    ensures s == s[..start] + u + s[start..][|u|..]
  {
  }

  lemma HeldURIAccepted(pre: string, i: InstanceURI, post: string)
    requires Formatted(i)
    ensures ParseInstURI(pre + URI(i) + post).Some?
  {
    var s := pre + URI(i) + post;
    ValidIsFormatted(i);
    PiecesFit(i);
    AcceptsPattern(s);
    InMiddle(pre, URI(i), post);
    assert Fits(PATTERN, Pieces(i), s[|pre|..]);
  }

  lemma InMiddle(pre: string, u: string, post: string)
    ensures (pre + u + post)[|pre|..] == u + post
  {
  }

  /** ParseInstURI accepts exactly the inputs that hold, somewhere, the URI of an instance in the
      format. */
  lemma AcceptsIff(s: string)
    ensures ParseInstURI(s).Some? <==> exists pre, i, post :: Formatted(i) && s == pre + URI(i) + post
  {
    if ParseInstURI(s).Some? {
      var pre, i, post := AcceptedHoldsURI(s);
    }
    if pre, i, post :| Formatted(i) && s == pre + URI(i) + post {
      HeldURIAccepted(pre, i, post);
    }
  }

  /** An instance survives printing and parsing if and only if its region, cluster and name are
      nonempty and colon-free, its project is one such part or two joined by a colon, and no tail of
      its URI holds its own words a second time. */
  lemma RoundTripIff(i: InstanceURI)
    ensures ParseInstURI(URI(i)) == Some(i) <==> Formatted(i) && Unrepeated(i)
  {
    FoundIffBest(i);
    ValidIsFormatted(i);
    if Valid(i) && Unrepeated(i) {
      forall vs | Fits(PATTERN, vs, URI(i)) ensures Preferred(Pieces(i), vs) {
        BestIfUnrepeated(i, vs);
      }
    } else if Valid(i) {
      var vs := BetterIfRepeated(i);
    }
  }

  /** Those are all the instances there are: the parser, the only source of instances, yields
      exactly the ones that survive. */
  lemma ParsedIff(i: InstanceURI)
    ensures (exists s :: ParseInstURI(s) == Some(i)) <==> Formatted(i) && Unrepeated(i)
  {
    RoundTripIff(i);
    if s :| ParseInstURI(s) == Some(i) {
      ParseIsStable(s);
    }
  }

  lemma WordAgain(w: string, a: string, q: string, t: string)
    ensures var front := w + a;
            var s := w + (a + w + q) + t;
            |front| <= |s| && s[|front|..] == w + q + t
  {
    assert w + (a + w + q) + t == (w + a) + (w + q + t);
  }

  // A part that holds its own word again makes the tail recur there.
  lemma RepeatedRecurs(words: seq<string>, parts: seq<string>, a: string, q: string)
    requires WellFormed(words, parts) && words != [] && words[0] != ""
    requires parts[0] == a + words[0] + q && q != ""
    ensures Recurs(words, Tail(words, parts))
  {
    var w, rest, t := words[0], Tail(words[1..], parts[1..]), Tail(words, parts);
    TailPiecesFit(words[1..], parts[1..]);
    FitLeads(words[1..], TailPieces(words[1..], parts[1..]), rest);
    LeadsWord(words, q, rest);
    WordAgain(w, a, q, rest);
    var j := |w + a|;
    assert t[j..] == w + q + rest;
    assert 0 < j <= |t| && Leads(words, t[j..]);
  }

  lemma LeadsWord(words: seq<string>, q: string, t: string)
    requires words != [] && q != "" && Leads(words[1..], t)
    ensures Leads(words, words[0] + q + t)
  {
    var k := |words[0] + q|;
    assert (words[0] + q + t)[k..] == t;
  }

  /** The failing side is a family without end: a region that holds "/locations/", a cluster that
      holds "/clusters/" or a name that holds "/instances/", with something behind it. */
  lemma RepeatedWordIsLost(i: InstanceURI, a: string, q: string)
    requires Formatted(i) && q != ""
    requires || i.region == a + WORDS[0] + q
             || i.cluster == a + WORDS[1] + q
             || i.name == a + WORDS[2] + q
    ensures ParseInstURI(URI(i)) != Some(i)
  {
    RoundTripIff(i);
    ValidIsFormatted(i);
    PiecesAre(i);
    if i.region == a + WORDS[0] + q {
      RepeatedRecurs(WORDS, Parts(i), a, q);
    } else if i.cluster == a + WORDS[1] + q {
      RepeatedRecurs(WORDS[1..], Parts(i)[1..], a, q);
      assert !NoneRecurs(WORDS[1..], Parts(i)[1..]);
    } else {
      RepeatedRecurs(WORDS[1..][1..], Parts(i)[1..][1..], a, q);
      assert !NoneRecurs(WORDS[1..][1..], Parts(i)[1..][1..]);
      assert !NoneRecurs(WORDS[1..], Parts(i)[1..]);
    }
  }

  // ---------- without slashes ----------

  predicate SlashFree(i: InstanceURI) {
    '/' !in i.project && '/' !in i.region && '/' !in i.cluster && '/' !in i.name
  }

  function Slashes(s: string): nat {
    if s == "" then 0 else (if s[0] == '/' then 1 else 0) + Slashes(s[1..])
  }

  lemma {:induction false} SlashesOfConcat(a: string, b: string)
    ensures Slashes(a + b) == Slashes(a) + Slashes(b)
  {
    if a == "" {
      assert a + b == b;
    } else {
      assert (a + b)[1..] == a[1..] + b;
      SlashesOfConcat(a[1..], b);
    }
  }

  lemma {:induction false} SlashesOfPlain(s: string)
    ensures Slashes(s) == 0 <==> '/' !in s
  {
    if s != "" {
      SlashesOfPlain(s[1..]);
    }
  }

  predicate TwoSlashes(words: seq<string>) {
    forall k :: 0 <= k < |words| ==> Slashes(words[k]) == 2 && words[k][0] == '/'
  }

  lemma {:induction false} SlashesOfTail(words: seq<string>, parts: seq<string>)
    requires |words| == |parts| && TwoSlashes(words)
    requires forall k :: 0 <= k < |parts| ==> '/' !in parts[k]
    ensures Slashes(Tail(words, parts)) == 2 * |words|
    ensures words != [] ==> Tail(words, parts) != "" && Tail(words, parts)[0] == '/'
  {
    if words != [] {
      SlashesOfTail(words[1..], parts[1..]);
      SlashesOfPlain(parts[0]);
      SlashesOfConcat(words[0], parts[0]);
      SlashesOfConcat(words[0] + parts[0], Tail(words[1..], parts[1..]));
    }
  }

  lemma {:induction false} SlashesOfLead(words: seq<string>, t: string)
    requires Leads(words, t) && TwoSlashes(words)
    ensures Slashes(t) >= 2 * |words|
  {
    if words != [] {
      var k :| |words[0]| < k <= |t| && Leads(words[1..], t[k..]);
      SlashesOfLead(words[1..], t[k..]);
      assert t == words[0] + t[|words[0]|..k] + t[k..];
      SlashesOfConcat(words[0], t[|words[0]|..k]);
      SlashesOfConcat(words[0] + t[|words[0]|..k], t[k..]);
    }
  }

  // A later beginning leaves too few slashes.
  lemma {:induction false} SlashFreeNoneRecurs(words: seq<string>, parts: seq<string>)
    requires |words| == |parts| && TwoSlashes(words)
    requires forall k :: 0 <= k < |parts| ==> '/' !in parts[k]
    ensures NoneRecurs(words, parts)
  {
    if words != [] {
      var t := Tail(words, parts);
      SlashesOfTail(words, parts);
      forall j | 0 < j <= |t| ensures !Leads(words, t[j..]) {
        assert t == t[..j] + t[j..];
        SlashesOfConcat(t[..j], t[j..]);
        if Leads(words, t[j..]) {
          SlashesOfLead(words, t[j..]);
        }
      }
      SlashFreeNoneRecurs(words[1..], parts[1..]);
    }
  }

  lemma SlashesOfWord(w: string)
    requires |w| >= 2 && w[0] == '/' && w[|w| - 1] == '/'
    requires forall k :: 0 < k < |w| - 1 ==> w[k] != '/'
    ensures Slashes(w) == 2
  {
    var x := w[1..|w| - 1];
    assert w[1..] == x + "/";
    SlashesOfConcat(x, "/");
    SlashesOfPlain(x);
  }

  lemma ThreeWords(a: string, b: string, c: string)
    requires Slashes(a) == Slashes(b) == Slashes(c) == 2 && a[0] == b[0] == c[0] == '/'
    ensures TwoSlashes([a, b, c])
  {
  }

  lemma SlashesOfLocations()
    ensures Slashes("/locations/") == 2
  {
    SlashesOfWord("/locations/");
  }

  lemma SlashesOfClusters()
    ensures Slashes("/clusters/") == 2
  {
    SlashesOfWord("/clusters/");
  }

  lemma SlashesOfInstances()
    ensures Slashes("/instances/") == 2
  {
    SlashesOfWord("/instances/");
  }

  lemma WordsHaveTwoSlashes()
    ensures TwoSlashes(WORDS)
  {
    SlashesOfLocations();
    SlashesOfClusters();
    SlashesOfInstances();
    ThreeWords("/locations/", "/clusters/", "/instances/");
  }

  /** Without slashes the format is all it takes. */
  lemma SlashFreeRoundTrip(i: InstanceURI)
    requires SlashFree(i)
    ensures ParseInstURI(URI(i)) == Some(i) <==> Formatted(i)
  {
    RoundTripIff(i);
    WordsHaveTwoSlashes();
    SlashFreeNoneRecurs(WORDS, Parts(i));
  }

  /** In full: the documented format, with a plain project, parses to its four parts. */
  lemma FormatParses(p: string, r: string, c: string, n: string)
    requires Plain(p) && Plain(r) && Plain(c) && Plain(n)
    requires '/' !in p && '/' !in r && '/' !in c && '/' !in n
    ensures ParseInstURI("projects/" + p + "/locations/" + r + "/clusters/" + c + "/instances/" + n)
         == Some(InstanceURI(p, r, c, n))
  {
    SlashFreeRoundTrip(InstanceURI(p, r, c, n));
  }

  /** And with a domain-scoped one ("google.com:PROJECT"). */
  lemma DomainScopedParses(a: string, b: string, r: string, c: string, n: string)
    requires Plain(a) && Plain(b) && Plain(r) && Plain(c) && Plain(n)
    requires '/' !in a && '/' !in b && '/' !in r && '/' !in c && '/' !in n
    ensures ParseInstURI("projects/" + a + ":" + b + "/locations/" + r + "/clusters/" + c + "/instances/" + n)
         == Some(InstanceURI(a + ":" + b, r, c, n))
  {
    var i := InstanceURI(a + ":" + b, r, c, n);
    SlashFreeRoundTrip(i);
    assert "projects/" + a + ":" + b == "projects/" + i.project;
  }
}
