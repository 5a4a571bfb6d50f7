/** Argument normalisation: a token that starts with '-' and contains '=' is
    split at its first '=' into two tokens; every other token is kept. */
module Normalizer {

  /** `cur.starts_with('-') && cur.contains('=')` */
  predicate IsFlagWithValue(t: string) {
    |t| > 0 && t[0] == '-' && '=' in t
  }

  /** Index of the first occurrence of `c` in `s`. */
  function FirstIndex(s: string, c: char): (i: nat)
    requires c in s
    ensures i < |s| && s[i] == c && c !in s[..i]
  {
    if s[0] == c then 0
    else
      var j := FirstIndex(s[1..], c);
      assert s[..j + 1] == [s[0]] + s[1..][..j];
      j + 1
  }

  /** `splitn(2, '=')` on a token that contains '=': the part before the first
      '=' and everything after it. */
  function SplitAtFirstEquals(t: string): (r: seq<string>)
    requires '=' in t
    ensures |r| == 2 && r[0] + "=" + r[1] == t && '=' !in r[0]
  {
    var i := FirstIndex(t, '=');
    assert t == t[..i] + [t[i]] + t[i + 1..];
    [t[..i], t[i + 1..]]
  }

  lemma {:induction false} FirstIndexAt(s: string, c: char, k: nat)
    requires k < |s| && s[k] == c && c !in s[..k]
    ensures FirstIndex(s, c) == k
  {
    if k > 0 {
      assert s[0] in s[..k];
      assert s[..k] == [s[0]] + s[1..][..k - 1];
      FirstIndexAt(s[1..], c, k - 1);
    }
  }

  /** The split is the only way to write `t` as `p + "=" + v` with no '=' in `p`. */
  lemma SplitUnique(t: string, p: string, v: string)
    requires p + "=" + v == t && '=' !in p
    ensures SplitAtFirstEquals(t) == [p, v]
  {
    assert t[..|p|] == p && t[|p|] == '=' && t[|p| + 1..] == v;
    FirstIndexAt(t, '=', |p|);
  }

  /** What one raw token contributes to the normalised vector. */
  function NormalizeToken(t: string): (r: seq<string>)
    ensures IsFlagWithValue(t) ==> |r| == 2 && r[0] + "=" + r[1] == t && '=' !in r[0] && r[0][0] == '-'
    ensures !IsFlagWithValue(t) ==> r == [t]
  {
    if IsFlagWithValue(t) then
      var r := SplitAtFirstEquals(t);
      assert |r[0]| > 0 by { assert (r[0] + "=" + r[1])[0] == '-'; }
      assert r[0][0] == t[0];
      r
    else [t]
  }

  /** The specification of the fold in `normalized_args`: the tokens each raw
      token contributes, in input order. */
  function Normalized(raw: seq<string>): seq<string>
    decreases |raw|
  {
    if raw == [] then [] else Normalized(raw[..|raw| - 1]) + NormalizeToken(raw[|raw| - 1])
  }

  /** Number of raw tokens that are split. */
  function CountSplit(raw: seq<string>): nat
    decreases |raw|
  {
    if raw == [] then 0
    else CountSplit(raw[..|raw| - 1]) + (if IsFlagWithValue(raw[|raw| - 1]) then 1 else 0)
  }

  /** Which raw tokens are split, in input order. */
  function SplitMarks(raw: seq<string>): (m: seq<bool>)
    ensures |m| == |raw|
    decreases |raw|
  {
    if raw == [] then [] else SplitMarks(raw[..|raw| - 1]) + [IsFlagWithValue(raw[|raw| - 1])]
  }

  /** Undo normalisation: working from the end, glue two tokens back together
      with '=' where the mark says the raw token was split. */
  function Rejoin(norm: seq<string>, marks: seq<bool>): seq<string>
    decreases |marks|
  {
    if marks == [] || norm == [] then []
    else if marks[|marks| - 1] && |norm| >= 2 then
      Rejoin(norm[..|norm| - 2], marks[..|marks| - 1]) + [norm[|norm| - 2] + "=" + norm[|norm| - 1]]
    else
      Rejoin(norm[..|norm| - 1], marks[..|marks| - 1]) + [norm[|norm| - 1]]
  }

  lemma {:induction false} NormalizedLength(raw: seq<string>)
    ensures |Normalized(raw)| == |raw| + CountSplit(raw)
    decreases |raw|
  {
    if raw != [] {
      NormalizedLength(raw[..|raw| - 1]);
    }
  }

  /** Normalisation works token by token: it distributes over concatenation,
      so the output keeps the order of the input. */
  lemma {:induction false} NormalizedConcat(a: seq<string>, b: seq<string>)
    ensures Normalized(a + b) == Normalized(a) + Normalized(b)
    decreases |b|
  {
    if b == [] {
      assert a + b == a;
    } else {
      var b' := b[..|b| - 1];
      assert (a + b)[..|a + b| - 1] == a + b';
      assert (a + b)[|a + b| - 1] == b[|b| - 1];
      NormalizedConcat(a, b');
    }
  }

  lemma NormalizedSingleton(t: string)
    ensures Normalized([t]) == NormalizeToken(t)
  {
    assert [t][..0] == [];
  }

  /** Where raw token `i` lands: at offset `i` plus the number of split tokens
      before it. A split token becomes `flag`, `value` with `flag + "=" + value`
      equal to the raw token; any other token is copied unchanged. */
  lemma NormalizedAt(raw: seq<string>, i: nat)
    requires i < |raw|
    ensures var n, o := Normalized(raw), i + CountSplit(raw[..i]);
      if IsFlagWithValue(raw[i]) then
        o + 1 < |n| && n[o] + "=" + n[o + 1] == raw[i] && '=' !in n[o] && n[o..o + 2] == SplitAtFirstEquals(raw[i])
      else
        o < |n| && n[o] == raw[i]
  {
    var pre, post := raw[..i], raw[i + 1..];
    assert raw == pre + [raw[i]] + post;
    NormalizedConcat(pre + [raw[i]], post);
    NormalizedConcat(pre, [raw[i]]);
    NormalizedSingleton(raw[i]);
    NormalizedLength(pre);
    var n := Normalized(raw);
    var o := i + CountSplit(pre);
    assert n == Normalized(pre) + NormalizeToken(raw[i]) + Normalized(post);
    var k := |NormalizeToken(raw[i])|;
    assert n[o..o + k] == NormalizeToken(raw[i]);
  }

  lemma {:induction false} CountSplitZero(raw: seq<string>)
    ensures CountSplit(raw) == 0 <==> forall i :: 0 <= i < |raw| ==> !IsFlagWithValue(raw[i])
    decreases |raw|
  {
    if raw != [] {
      var init := raw[..|raw| - 1];
      CountSplitZero(init);
      assert forall i :: 0 <= i < |init| ==> init[i] == raw[i];
    }
  }

  /** Normalisation leaves a vector unchanged exactly when no token of it is
      split. */
  lemma {:induction false} NormalizedIdentity(raw: seq<string>)
    ensures Normalized(raw) == raw <==> forall i :: 0 <= i < |raw| ==> !IsFlagWithValue(raw[i])
    decreases |raw|
  {
    NormalizedLength(raw);
    CountSplitZero(raw);
    if raw != [] && forall i :: 0 <= i < |raw| ==> !IsFlagWithValue(raw[i]) {
      var init := raw[..|raw| - 1];
      assert forall i :: 0 <= i < |init| ==> init[i] == raw[i];
      NormalizedIdentity(init);
      assert raw == init + [raw[|raw| - 1]];
    }
  }

  /** Rejoining the last raw token's pieces. */
  lemma RejoinSnoc(front: seq<string>, piece: seq<string>, marks: seq<bool>, split: bool)
    requires if split then |piece| == 2 else |piece| == 1
    ensures Rejoin(front + piece, marks + [split]) ==
      Rejoin(front, marks) + [if split then piece[0] + "=" + piece[1] else piece[0]]
  {
    var n, m := front + piece, marks + [split];
    assert m[..|m| - 1] == marks;
    if split {
      assert n[..|n| - 2] == front;
    } else {
      assert n[..|n| - 1] == front;
    }
  }

  /** Round trip: gluing the split pairs back together gives the raw vector. */
  lemma {:induction false} RejoinNormalized(raw: seq<string>)
    ensures Rejoin(Normalized(raw), SplitMarks(raw)) == raw
    decreases |raw|
  {
    if raw != [] {
      var init, last := raw[..|raw| - 1], raw[|raw| - 1];
      var piece, split := NormalizeToken(last), IsFlagWithValue(last);
      calc {
        Rejoin(Normalized(raw), SplitMarks(raw));
        Rejoin(Normalized(init) + piece, SplitMarks(init) + [split]);
        { RejoinSnoc(Normalized(init), piece, SplitMarks(init), split); }
        Rejoin(Normalized(init), SplitMarks(init)) + [last];
        { RejoinNormalized(init); }
        init + [last];
        raw;
      }
    }
  }

  /** No token of the output is split again when no raw flag's value part is
      itself a flag with a value; the flag part never is. */
  lemma {:induction false} NoFlagRemains(raw: seq<string>)
    requires forall i :: 0 <= i < |raw| && IsFlagWithValue(raw[i]) ==> !IsFlagWithValue(SplitAtFirstEquals(raw[i])[1])
    ensures forall k :: 0 <= k < |Normalized(raw)| ==> !IsFlagWithValue(Normalized(raw)[k])
    decreases |raw|
  {
    if raw != [] {
      var init, last := raw[..|raw| - 1], raw[|raw| - 1];
      assert forall i :: 0 <= i < |init| ==> init[i] == raw[i];
      NoFlagRemains(init);
      var n := Normalized(raw);
      assert n == Normalized(init) + NormalizeToken(last);
      forall k | 0 <= k < |n| ensures !IsFlagWithValue(n[k]) {
        if k >= |Normalized(init)| {
          assert n[k] == NormalizeToken(last)[k - |Normalized(init)|];
        }
      }
    }
  }

  /** Normalising twice gives the same vector as normalising once, as long as
      no flag's value part is itself of the form `-X=Y`. */
  lemma NormalizedTwice(raw: seq<string>)
    requires forall i :: 0 <= i < |raw| && IsFlagWithValue(raw[i]) ==> !IsFlagWithValue(SplitAtFirstEquals(raw[i])[1])
    ensures Normalized(Normalized(raw)) == Normalized(raw)
  {
    NoFlagRemains(raw);
    NormalizedIdentity(Normalized(raw));
  }

  /** A token without '=' followed by `flag=value`, with no '=' in `flag`:
      the second token splits into `flag`, `value`. */
  lemma NormalizedFlagAfterPlain(plain: string, flag: string, value: string)
    requires '=' !in plain && '=' !in flag && |flag| > 0 && flag[0] == '-'
    ensures Normalized([plain, flag + "=" + value]) == [plain, flag, value]
  {
    var token := flag + "=" + value;
    assert '=' in token by { assert token[|flag|] == '='; }
    SplitUnique(token, flag, value);
    NormalizedSingleton(token);
    NormalizedSingleton(plain);
    NormalizedConcat([plain], [token]);
    assert [plain, token] == [plain] + [token];
  }

  /** Without that condition a second pass splits the value part again. */
  lemma NormalizedNotIdempotent()
    ensures Normalized(["--a=-b=c"]) == ["--a", "-b=c"]
    ensures Normalized(Normalized(["--a=-b=c"])) == ["--a", "-b", "c"]
  {
    NormalizedSingleton("--a=-b=c");
    SplitUnique("--a=-b=c", "--a", "-b=c");
    SecondPass();
  }

  lemma SecondPass()
    ensures Normalized(["--a", "-b=c"]) == ["--a", "-b", "c"]
  {
    NormalizedConcat(["--a"], ["-b=c"]);
    assert ["--a", "-b=c"] == ["--a"] + ["-b=c"];
    NormalizedSingleton("--a");
    NormalizedSingleton("-b=c");
    assert '=' !in "--a";
    SplitUnique("-b=c", "-b", "c");
  }
}
