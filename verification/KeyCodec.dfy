/** The flat keys of the configuration store: constructKey in config_backend.go. */
module KeyCodec {
  const ROOT := "onapk8s/config/"

  predicate SlashFree(s: string) {
    '/' !in s
  }

  predicate AllSlashFree(segments: seq<string>) {
    forall i | 0 <= i < |segments| :: SlashFree(segments[i])
  }

  /** Every segment followed by one slash. */
  function Joined(segments: seq<string>): string {
    if segments == [] then "" else segments[0] + "/" + Joined(segments[1..])
  }

  function Key(segments: seq<string>): string {
    ROOT + Joined(segments)
  }

  /** The string builder loop of constructKey. */
  method ConstructKey(segments: seq<string>) returns (key: string)
    ensures key == Key(segments)
  {
    key := "onapk8s" + "/" + "config" + "/";
    for i := 0 to |segments|
      invariant key + Joined(segments[i..]) == Key(segments)
    {
      assert segments[i..][1..] == segments[i + 1..];
      key := key + segments[i] + "/";
    }
  }

  /** Two slash-free strings that end at the first slash of comparable strings are the same. */
  lemma FirstSegment(a: string, s: string, b: string, t: string)
    requires SlashFree(a) && SlashFree(b)
    requires a + "/" + s <= b + "/" + t
    ensures a == b && s <= t
  {
    var x, y := a + "/" + s, b + "/" + t;
    assert x[|a|] == '/' && y[|b|] == '/';
    assert forall i | 0 <= i < |a| :: x[i] == a[i] && x[i] == y[i];
    assert |a| == |b|;
    assert a == x[..|a|] == y[..|a|] == b;
    assert s == x[|a| + 1..] && t == y[|a| + 1..];
  }

  /** On slash-free segments, "is a prefix of" means the same for the keys as for the segment lists. */
  lemma PrefixExactly(xs: seq<string>, ys: seq<string>)
    requires AllSlashFree(xs) && AllSlashFree(ys)
    ensures Key(xs) <= Key(ys) <==> xs <= ys
  {
    JoinedPrefix(xs, ys);
    assert Key(xs)[|ROOT|..] == Joined(xs) && Key(ys)[|ROOT|..] == Joined(ys);
  }

  lemma {:induction false} JoinedPrefix(xs: seq<string>, ys: seq<string>)
    requires AllSlashFree(xs) && AllSlashFree(ys)
    ensures Joined(xs) <= Joined(ys) <==> xs <= ys
  {
    if xs != [] && ys != [] {
      JoinedPrefix(xs[1..], ys[1..]);
      if Joined(xs) <= Joined(ys) {
        FirstSegment(xs[0], Joined(xs[1..]), ys[0], Joined(ys[1..]));
        assert xs == [xs[0]] + xs[1..] && ys == [ys[0]] + ys[1..];
      }
      if xs <= ys {
        assert xs[1..] <= ys[1..];
        assert Joined(ys) == ys[0] + "/" + Joined(ys[1..]);
      }
    }
  }

  /** Distinct slash-free segment lists have distinct keys. */
  lemma KeyInjective(xs: seq<string>, ys: seq<string>)
    requires AllSlashFree(xs) && AllSlashFree(ys)
    ensures Key(xs) == Key(ys) <==> xs == ys
  {
    PrefixExactly(xs, ys);
    PrefixExactly(ys, xs);
  }

  lemma {:induction false} JoinedAppend(xs: seq<string>, ys: seq<string>)
    ensures Joined(xs + ys) == Joined(xs) + Joined(ys)
  {
    if xs == [] {
      assert xs + ys == ys;
    } else {
      assert (xs + ys)[1..] == xs[1..] + ys;
      JoinedAppend(xs[1..], ys);
    }
  }

  /** Behind slash-free heads of one length, "is a prefix of" means the same for the keys as for the tails. */
  lemma HeadPrefix(xs: seq<string>, ys: seq<string>, s: string, t: string)
    requires AllSlashFree(xs) && AllSlashFree(ys) && |xs| == |ys|
    ensures Key(xs) + s <= Key(ys) + t <==> xs == ys && s <= t
  {
    JoinedHead(xs, ys, s, t);
    assert (Key(xs) + s)[|ROOT|..] == Joined(xs) + s && (Key(ys) + t)[|ROOT|..] == Joined(ys) + t;
  }

  lemma {:induction false} JoinedHead(xs: seq<string>, ys: seq<string>, s: string, t: string)
    requires AllSlashFree(xs) && AllSlashFree(ys) && |xs| == |ys|
    ensures Joined(xs) + s <= Joined(ys) + t <==> xs == ys && s <= t
  {
    if xs == [] {
      assert Joined(xs) + s == s && Joined(ys) + t == t;
    } else {
      var a, b := Joined(xs[1..]) + s, Joined(ys[1..]) + t;
      assert Joined(xs) + s == xs[0] + "/" + a && Joined(ys) + t == ys[0] + "/" + b;
      JoinedHead(xs[1..], ys[1..], s, t);
      assert xs == [xs[0]] + xs[1..] && ys == [ys[0]] + ys[1..];
      if xs[0] + "/" + a <= ys[0] + "/" + b {
        FirstSegment(xs[0], a, ys[0], b);
      }
      if xs[0] == ys[0] && a <= b {
        assert ys[0] + "/" + b == xs[0] + "/" + a + b[|a|..];
      }
    }
  }

  lemma KeyTail(xs: seq<string>, ys: seq<string>)
    ensures Key(xs + ys) == Key(xs) + Joined(ys)
  {
    JoinedAppend(xs, ys);
  }

  /** Two strings whose last segment is slash-free end at the same slash. */
  lemma LastSegment(a: string, x: string, b: string, y: string)
    requires SlashFree(x) && SlashFree(y)
    requires a + "/" + x == b + "/" + y
    ensures a == b && x == y
  {
    var s := a + "/" + x;
    assert s[|a|] == '/' && s[|b|] == '/';
    assert forall j | |a| < j < |s| :: s[j] == x[j - |a| - 1];
    assert forall j | |b| < j < |s| :: s[j] == y[j - |b| - 1];
    assert s[..|a|] == a && s[..|b|] == b && s[|a| + 1..] == x && s[|b| + 1..] == y;
  }

  /** When a name's prefix reaches a name's own key: the same name, or one that continues it after a slash. */
  lemma NameReach(mine: string, other: string)
    ensures mine + "/" <= other + "/" <==> mine == other || mine + "/" <= other
  {
    var x, y := mine + "/", other + "/";
    assert x[..|mine|] == mine && y[..|other|] == other;
    if x <= y {
      assert x == y[..|x|];
      if |mine| < |other| {
        assert x == other[..|x|];
      }
    }
  }

  lemma PrefixHasSlash(a: string, b: string)
    ensures a + "/" <= b ==> '/' in b
  {
    if a + "/" <= b {
      assert b[|a|] == '/';
    }
  }

  /** What is left of a name behind a shorter one and a slash. */
  function Behind(name: string, head: string): string
    requires head + "/" <= name
  {
    name[|head| + 1..]
  }

  /** When it reaches a key with one more segment: it may also end inside that segment. */
  lemma SegmentReach(mine: string, other: string, segment: string)
    ensures mine + "/" <= other + "/" + segment + "/" <==>
      || mine == other || mine + "/" <= other
      || (other + "/" <= mine && (Behind(mine, other) == segment || Behind(mine, other) + "/" <= segment))
  {
    var x, y := mine + "/", other + "/" + segment + "/";
    NameReach(mine, other);
    assert y == (other + "/") + (segment + "/");
    assert x <= y && |mine| > |other| ==> mine[..|other| + 1] == y[..|other| + 1];
    if other + "/" <= mine {
      var rest := Behind(mine, other);
      assert x == (other + "/") + (rest + "/");
      Behead(other + "/", rest + "/", segment + "/");
      NameReach(rest, segment);
    } else if x <= y {
      assert x == y[..|x|];
      assert x == (other + "/")[..|x|];
    }
  }

  /**
   * Names the code accepts may contain slashes. Cleaning up the name `mine` under `base` deletes the counter of another
   * name exactly when that name begins with `mine` and a slash; and a version or tag entry also when `mine` is the
   * other
   * name, a slash, and the version or tag itself (or the part of the tag before one of its slashes).
   */
  lemma CleanupReach(base: seq<string>, mine: string, other: string, segment: string)
    ensures Key(base + [mine]) <= Key(base + [other]) <==> mine == other || mine + "/" <= other
    ensures Key(base + [mine]) <= Key(base + [other, segment]) <==>
      || mine == other || mine + "/" <= other
      || (other + "/" <= mine && (Behind(mine, other) == segment || Behind(mine, other) + "/" <= segment))
    ensures SlashFree(segment) ==>
      (Key(base + [mine]) <= Key(base + [other, segment]) <==>
        mine == other || mine + "/" <= other || mine == other + "/" + segment)
  {
    var head, x, y, z := Key(base), mine + "/", other + "/", other + "/" + segment + "/";
    KeyTail(base, [mine]);
    KeyTail(base, [other]);
    KeyTail(base, [other, segment]);
    assert Joined([mine]) == x && Joined([other]) == y;
    assert Joined([other, segment]) == z by {
      assert [other, segment][1..] == [segment];
      assert Joined([segment]) == segment + "/";
    }
    assert head + x <= head + y <==> x <= y by { Behead(head, x, y); }
    assert head + x <= head + z <==> x <= z by { Behead(head, x, z); }
    NameReach(mine, other);
    SegmentReach(mine, other, segment);
    if other + "/" <= mine {
      PrefixHasSlash(Behind(mine, other), segment);
    }
    if mine == other + "/" + segment {
      assert other + "/" <= mine && Behind(mine, other) == segment;
    }
  }

  lemma Behead(head: string, x: string, y: string)
    ensures head + x <= head + y <==> x <= y
  {
    assert (head + x)[|head|..] == x && (head + y)[|head|..] == y;
  }

  /** The inputs that show it: cleaning up "a/1" deletes version 1 of "a", and cleaning up "a" everything of "a/1". */
  lemma CleanupReachesOthers(base: seq<string>)
    ensures Key(base + ["a/1"]) <= Key(base + ["a", "1"])
    ensures Key(base + ["a"]) <= Key(base + ["a/1"]) && Key(base + ["a"]) <= Key(base + ["a/1", "2"])
  {
    CleanupReach(base, "a/1", "a", "1");
    assert "a/1" == "a" + "/" + "1";
    CleanupReach(base, "a", "a/1", "2");
    assert "a" + "/" <= "a/1";
  }
}
