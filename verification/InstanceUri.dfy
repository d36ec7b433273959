/** The instance URI: its printer, and its parser, which is one regular expression searched for
    anywhere in the input. The expression is matched leftmost-first, as Go's regexp does: at the
    leftmost start where it matches at all, every repetition takes as much as it can, earlier ones
    first. A group stops only at a colon, so it may contain slashes. */
module InstanceUri {
  import opened Wrappers

  datatype InstanceURI = InstanceURI(project: string, region: string, cluster: string, name: string)

  function URI(i: InstanceURI): string {
    "projects/" + i.project + "/locations/" + i.region + "/clusters/" + i.cluster + "/instances/" + i.name
  }

  // ---------- the regular expression ----------

  /** A literal, `[^:]+`, or `(:[^:]+)?`. */
  datatype Elem = Lit(text: string) | Plus | OptColonPlus

  const PATTERN: seq<Elem> := [
    Lit("projects/"), Plus, OptColonPlus, Lit("/locations/"), Plus, Lit("/clusters/"), Plus, Lit("/instances/"), Plus]

  predicate Accepts(e: Elem, w: string) {
    match e
    case Lit(text) => w == text
    case Plus => w != "" && ':' !in w
    case OptColonPlus => w == "" || (|w| >= 2 && w[0] == ':' && ':' !in w[1..])
  }

  function Concat(ws: seq<string>): string {
    if ws == [] then "" else ws[0] + Concat(ws[1..])
  }

  /** `ws` is one way to match the pattern at the beginning of `s`, a piece for each element. */
  predicate Fits(p: seq<Elem>, ws: seq<string>, s: string) {
    && |ws| == |p|
    && (forall k :: 0 <= k < |p| ==> Accepts(p[k], ws[k]))
    && Concat(ws) <= s
  }

  /** `ws` is preferred to `vs`, or they are the same length for length: the first piece in which
      they differ is longer in `ws`. */
  predicate Preferred(ws: seq<string>, vs: seq<string>)
    requires |ws| == |vs|
  {
    ws == [] || |ws[0]| > |vs[0]| || (|ws[0]| == |vs[0]| && Preferred(ws[1..], vs[1..]))
  }

  /** The match the library reports: the leftmost start, and there the most preferred pieces. */
  ghost predicate IsLeftmostFirst(p: seq<Elem>, s: string, start: nat, ws: seq<string>) {
    && start <= |s|
    && Fits(p, ws, s[start..])
    && (forall j, vs :: 0 <= j < start ==> !Fits(p, vs, s[j..]))
    && (forall vs :: Fits(p, vs, s[start..]) ==> Preferred(ws, vs))
  }

  // ---------- a matcher ----------

  function MatchHere(p: seq<Elem>, s: string): Option<seq<string>>
    decreases |p|, |s| + 1
  {
    if p == [] then Some([]) else MatchFirst(p, s, |s|)
  }

  // The first piece is tried at length n, then at every shorter one.
  function MatchFirst(p: seq<Elem>, s: string, n: nat): Option<seq<string>>
    requires p != [] && n <= |s|
    decreases |p|, n
  {
    var rest := if Accepts(p[0], s[..n]) then MatchHere(p[1..], s[n..]) else None;
    if rest.Some? then Some([s[..n]] + rest.value)
    else if n == 0 then None
    else MatchFirst(p, s, n - 1)
  }

  function Find(p: seq<Elem>, s: string, start: nat): Option<(nat, seq<string>)>
    requires start <= |s|
    decreases |s| - start
  {
    var m := MatchHere(p, s[start..]);
    if m.Some? then Some((start, m.value))
    else if start == |s| then None
    else Find(p, s, start + 1)
  }

  function FromPieces(ws: seq<string>): InstanceURI
    requires |ws| == |PATTERN|
  {
    InstanceURI(ws[1] + ws[2], ws[4], ws[6], ws[8])
  }

  /** ParseInstURI; None is the configuration error. */
  function ParseInstURI(s: string): Option<InstanceURI> {
    match Find(PATTERN, s, 0)
    case None => None
    case Some((_, ws)) =>
      FindFrom(PATTERN, s, 0);
      Some(FromPieces(ws))
  }

  // ---------- the matcher reports the leftmost-first match ----------

  lemma FitsCons(p: seq<Elem>, ws: seq<string>, s: string)
    requires p != [] && ws != []
    ensures Fits(p, ws, s) <==>
            && Accepts(p[0], ws[0]) && ws[0] <= s
            && Fits(p[1..], ws[1..], s[|ws[0]|..])
  {
    if Fits(p, ws, s) {
      assert ws[0] + Concat(ws[1..]) <= s;
      assert forall k :: 0 <= k < |p[1..]| ==> p[1..][k] == p[k + 1] && ws[1..][k] == ws[k + 1];
    }
    if Accepts(p[0], ws[0]) && ws[0] <= s && Fits(p[1..], ws[1..], s[|ws[0]|..]) {
      assert s == ws[0] + s[|ws[0]|..];
      forall k | 0 <= k < |p| ensures Accepts(p[k], ws[k]) {
        if k > 0 {
          assert p[1..][k - 1] == p[k] && ws[1..][k - 1] == ws[k];
        }
      }
    }
  }

  lemma {:induction false} MatchHereSound(p: seq<Elem>, s: string)
    ensures MatchHere(p, s).Some? ==> Fits(p, MatchHere(p, s).value, s)
    decreases |p|, |s| + 1
  {
    if p != [] {
      MatchFirstSound(p, s, |s|);
    }
  }

  lemma {:induction false} MatchFirstSound(p: seq<Elem>, s: string, n: nat)
    requires p != [] && n <= |s|
    ensures MatchFirst(p, s, n).Some? ==> Fits(p, MatchFirst(p, s, n).value, s)
    decreases |p|, n
  {
    if Accepts(p[0], s[..n]) {
      MatchHereSound(p[1..], s[n..]);
      if MatchHere(p[1..], s[n..]).Some? {
        var ws := [s[..n]] + MatchHere(p[1..], s[n..]).value;
        assert ws[1..] == MatchHere(p[1..], s[n..]).value;
        FitsCons(p, ws, s);
        return;
      }
    }
    if n > 0 {
      MatchFirstSound(p, s, n - 1);
    }
  }

  lemma {:induction false} MatchHereComplete(p: seq<Elem>, s: string, vs: seq<string>)
    requires Fits(p, vs, s)
    ensures MatchHere(p, s).Some? && |MatchHere(p, s).value| == |vs|
    ensures Preferred(MatchHere(p, s).value, vs)
    decreases |p|, |s| + 1
  {
    if p != [] {
      FitsCons(p, vs, s);
      MatchFirstComplete(p, s, |s|, vs);
    }
  }

  lemma {:induction false} MatchFirstComplete(p: seq<Elem>, s: string, n: nat, vs: seq<string>)
    requires p != [] && n <= |s| && Fits(p, vs, s) && |vs[0]| <= n
    ensures MatchFirst(p, s, n).Some? && |MatchFirst(p, s, n).value| == |vs|
    ensures Preferred(MatchFirst(p, s, n).value, vs)
    decreases |p|, n
  {
    FitsCons(p, vs, s);
    var rest := if Accepts(p[0], s[..n]) then MatchHere(p[1..], s[n..]) else None;
    if |vs[0]| == n {
      assert s[..n] == vs[0];
      MatchHereComplete(p[1..], s[n..], vs[1..]);
      ConsPreferred(s[..n], rest.value, vs);
    } else if rest.Some? {
      MatchHereSound(p[1..], s[n..]);
      LongerPreferred(s[..n], rest.value, vs);
    } else {
      MatchFirstComplete(p, s, n - 1, vs);
    }
  }

  lemma ConsPreferred(w: string, ws: seq<string>, vs: seq<string>)
    requires vs != [] && |w| == |vs[0]| && |ws| == |vs[1..]| && Preferred(ws, vs[1..])
    ensures Preferred([w] + ws, vs)
  {
    assert ([w] + ws)[1..] == ws;
  }

  lemma LongerPreferred(w: string, ws: seq<string>, vs: seq<string>)
    requires vs != [] && |w| > |vs[0]| && |ws| == |vs| - 1
    ensures Preferred([w] + ws, vs)
  {
  }

  lemma {:induction false} FindFrom(p: seq<Elem>, s: string, from: nat)
    requires from <= |s|
    requires forall j, vs :: 0 <= j < from ==> !Fits(p, vs, s[j..])
    ensures match Find(p, s, from)
            case Some((start, ws)) => IsLeftmostFirst(p, s, start, ws)
            case None => forall j, vs :: 0 <= j <= |s| ==> !Fits(p, vs, s[j..])
    decreases |s| - from
  {
    var m := MatchHere(p, s[from..]);
    MatchHereSound(p, s[from..]);
    forall vs | Fits(p, vs, s[from..]) ensures m.Some? && |m.value| == |vs| && Preferred(m.value, vs) {
      MatchHereComplete(p, s[from..], vs);
    }
    if m.None? && from < |s| {
      FindFrom(p, s, from + 1);
    }
  }

  lemma {:induction false} PreferredBothWays(p: seq<Elem>, ws: seq<string>, vs: seq<string>, s: string)
    requires Fits(p, ws, s) && Fits(p, vs, s) && Preferred(ws, vs) && Preferred(vs, ws)
    ensures ws == vs
    decreases |p|
  {
    if p != [] {
      FitsCons(p, ws, s);
      FitsCons(p, vs, s);
      assert ws[0] == s[..|ws[0]|] == vs[0];
      PreferredBothWays(p[1..], ws[1..], vs[1..], s[|ws[0]|..]);
      assert ws == [ws[0]] + ws[1..] && vs == [vs[0]] + vs[1..];
    }
  }

  /** The matcher reports a match if and only if it is the leftmost-first one, and reports none if
      and only if the pattern matches nowhere. */
  lemma FindIsLeftmostFirst(p: seq<Elem>, s: string, start: nat, ws: seq<string>)
    ensures Find(p, s, 0) == Some((start, ws)) <==> IsLeftmostFirst(p, s, start, ws)
    ensures Find(p, s, 0).None? <==> forall j, vs :: 0 <= j <= |s| ==> !Fits(p, vs, s[j..])
  {
    FindFrom(p, s, 0);
    if Find(p, s, 0).Some? && IsLeftmostFirst(p, s, start, ws) {
      var (j, vs) := Find(p, s, 0).value;
      assert j == start;
      PreferredBothWays(p, ws, vs, s[start..]);
    }
  }
}
