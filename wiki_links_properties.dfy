/**
 * Properties of `links` (src/main.rs): the scanner agrees with the
 * pattern's leftmost-first semantics, every target is a non-empty
 * bracket-free piece of the text, and the display part of a link is dropped.
 */
module WikiLinksProperties {
  import opened Wrappers
  import opened WikiLinks

  lemma {:induction false} RunEndOfClean(s: string, i: nat, q: nat)
    requires i <= q <= |s|
    requires NoBrackets(s[i..q])
    requires q == |s| || IsBracket(s[q])
    ensures RunEnd(s, i) == q
    decreases q - i
  {
    if i < q {
      assert s[i] == s[i..q][0];
      assert s[i + 1..q] == s[i..q][1..];
      RunEndOfClean(s, i + 1, q);
    }
  }

  /** The scanner's match is a match of the pattern, with the capture leftmost-first semantics gives. */
  lemma MatchAtSound(s: string, p: nat)
    requires p <= |s|
    requires MatchAt(s, p).Some?
    ensures IsLinkMatch(s, p, MatchAt(s, p).value.end, MatchAt(s, p).value.target)
  {
    var m := MatchAt(s, p).value;
    var inner := s[p + 2..m.end - 2];
    var k := PipeFrom(inner, 1);
    assert m.target == inner[..k];
    forall j | 1 <= j < k
      ensures !GroupEnd(inner, j)
    {
      assert inner[j] != '|';
    }
  }

  /** Every match of the pattern at `p` is the one the scanner finds there. */
  lemma MatchAtComplete(s: string, p: nat, e: nat, x: string)
    requires IsLinkMatch(s, p, e, x)
    ensures MatchAt(s, p) == Some(Match(x, e))
  {
    var q := e - 2;
    var inner := s[p + 2..q];
    RunEndOfClean(s, p + 2, q);
    var k := PipeFrom(inner, 1);
    assert GroupEnd(inner, k);
  }

  /**
   * Leftmost-first, non-overlapping search: when no match starts in
   * `[p, start)` and one starts at `start`, the scan reports its capture
   * first and goes on after its end.
   */
  lemma {:induction false} ScanFindsLeftmost(s: string, p: nat, start: nat, e: nat, x: string)
    requires p <= start <= |s|
    requires forall i, e', x' :: p <= i < start ==> !IsLinkMatch(s, i, e', x')
    requires IsLinkMatch(s, start, e, x)
    ensures Scan(s, p) == [x] + Scan(s, e)
    decreases start - p
  {
    if p == start {
      MatchAtComplete(s, p, e, x);
    } else {
      if MatchAt(s, p).Some? {
        MatchAtSound(s, p);
        assert false;
      }
      ScanFindsLeftmost(s, p + 1, start, e, x);
    }
  }

  /** Where no match of the pattern starts, the scan finds nothing. */
  lemma {:induction false} ScanFindsNothing(s: string, p: nat)
    requires p <= |s|
    requires forall i, e', x' :: p <= i < |s| ==> !IsLinkMatch(s, i, e', x')
    ensures Scan(s, p) == []
    decreases |s| - p
  {
    if p < |s| {
      if MatchAt(s, p).Some? {
        MatchAtSound(s, p);
        assert false;
      }
      ScanFindsNothing(s, p + 1);
    }
  }

  lemma {:induction false} ScanOccurs(s: string, p: nat)
    requires p <= |s|
    ensures forall x :: x in Scan(s, p) ==> exists i :: OccursAt(x, s, i)
    decreases |s| - p
  {
    if p < |s| {
      if MatchAt(s, p).Some? {
        var m := MatchAt(s, p).value;
        ScanOccurs(s, m.end);
        MatchAtSound(s, p);
        assert OccursAt(m.target, s, p + 2);
        ScanAtMatch(s, p);
      } else {
        ScanOccurs(s, p + 1);
        ScanAtNoMatch(s, p);
      }
    }
  }

  /** Every link target is a substring of the text. */
  lemma LinksOccurInText(s: string)
    ensures forall x :: x in Links(s) ==> exists i :: OccursAt(x, s, i)
  {
    ScanOccurs(s, 0);
  }

  /**
   * Matches cannot overlap: a match that starts before another match of the
   * pattern ends no later than where that one starts.
   */
  lemma NoOverlap(s: string, i: nat, p: nat, e: nat, x: string)
    requires i < p <= |s| && MatchAt(s, i).Some?
    requires IsLinkMatch(s, p, e, x)
    ensures MatchAt(s, i).value.end <= p
  {
    MatchAtSound(s, i);
  }

  /** The scan from any position at or before a match reports its capture. */
  lemma {:induction false} ScanReaches(s: string, i: nat, p: nat, e: nat, x: string)
    requires i <= p <= |s|
    requires IsLinkMatch(s, p, e, x)
    ensures x in Scan(s, i)
    decreases p - i
  {
    if i == p {
      MatchAtComplete(s, p, e, x);
      ScanAtMatch(s, p);
    } else if MatchAt(s, i).Some? {
      NoOverlap(s, i, p, e, x);
      ScanReaches(s, MatchAt(s, i).value.end, p, e, x);
      ScanAtMatch(s, i);
    } else {
      ScanReaches(s, i + 1, p, e, x);
      ScanAtNoMatch(s, i);
    }
  }

  /** Every capture of the scan is the capture of some match of the pattern. */
  lemma {:induction false} ScanSound(s: string, p: nat)
    requires p <= |s|
    ensures forall x :: x in Scan(s, p) ==> exists q, e :: IsLinkMatch(s, q, e, x)
    decreases |s| - p
  {
    if p < |s| {
      if MatchAt(s, p).Some? {
        var m := MatchAt(s, p).value;
        MatchAtSound(s, p);
        ScanSound(s, m.end);
        ScanAtMatch(s, p);
      } else {
        ScanSound(s, p + 1);
        ScanAtNoMatch(s, p);
      }
    }
  }

  /**
   * The set of links is exactly the set of captures of the pattern's matches
   * anywhere in the text: the search misses no match and invents none.
   */
  lemma LinksExactly(s: string)
    ensures forall x :: x in Links(s) <==> exists p, e :: IsLinkMatch(s, p, e, x)
  {
    ScanSound(s, 0);
    forall x | exists p, e :: IsLinkMatch(s, p, e, x)
      ensures x in Links(s)
    {
      var p, e :| IsLinkMatch(s, p, e, x);
      ScanReaches(s, 0, p, e, x);
    }
  }

  lemma {:induction false} ScanWithoutOpener(s: string, p: nat)
    requires p <= |s|
    requires forall i :: p <= i < |s| - 1 ==> !(s[i] == '[' && s[i + 1] == '[')
    ensures Scan(s, p) == []
    decreases |s| - p
  {
    if p < |s| {
      ScanWithoutOpener(s, p + 1);
    }
  }

  /** A text with no `[[` has no links. */
  lemma NoOpenerNoLinks(s: string)
    requires forall i :: 0 <= i < |s| - 1 ==> !(s[i] == '[' && s[i + 1] == '[')
    ensures Links(s) == {}
  {
    ScanWithoutOpener(s, 0);
  }

  lemma {:induction false} RunEndShift(a: string, b: string, j: nat)
    requires j <= |b|
    ensures RunEnd(a + b, |a| + j) == |a| + RunEnd(b, j)
    decreases |b| - j
  {
    if j < |b| {
      assert (a + b)[|a| + j] == b[j];
      RunEndShift(a, b, j + 1);
    }
  }

  /** A match depends only on the text from its start onwards. */
  lemma MatchAtShift(a: string, b: string, i: nat)
    requires i <= |b|
    ensures MatchAt(a + b, |a| + i).Some? == MatchAt(b, i).Some?
    ensures MatchAt(b, i).Some? ==>
      MatchAt(a + b, |a| + i).value == Match(MatchAt(b, i).value.target, |a| + MatchAt(b, i).value.end)
  {
    var s := a + b;
    var p := |a| + i;
    if i + 2 <= |b| {
      RunEndShift(a, b, i + 2);
      var q := RunEnd(b, i + 2);
      assert s[p] == b[i] && s[p + 1] == b[i + 1];
      assert s[p + 2..|a| + q] == b[i + 2..q];
      if q + 2 <= |b| {
        assert s[|a| + q] == b[q] && s[|a| + q + 1] == b[q + 1];
      }
    }
  }

  /** At a match the scan reports its capture and resumes after it. */
  lemma ScanAtMatch(s: string, p: nat)
    requires p <= |s| && MatchAt(s, p).Some?
    ensures Scan(s, p) == [MatchAt(s, p).value.target] + Scan(s, MatchAt(s, p).value.end)
  {
  }

  /** Where no match starts the scan moves on by one position. */
  lemma ScanAtNoMatch(s: string, p: nat)
    requires p < |s| && MatchAt(s, p).None?
    ensures Scan(s, p) == Scan(s, p + 1)
  {
  }

  /** Scanning the end of a longer text is scanning that end alone. */
  lemma {:induction false} ScanSuffix(a: string, b: string, i: nat)
    requires i <= |b|
    ensures Scan(a + b, |a| + i) == Scan(b, i)
    decreases |b| - i, 1
  {
    if i == |b| {
      assert |a| + i == |a + b|;
    } else if MatchAt(b, i).Some? {
      ScanSuffixAtMatch(a, b, i);
    } else {
      MatchAtShift(a, b, i);
      ScanSuffix(a, b, i + 1);
      ScanAtNoMatch(b, i);
      ScanAtNoMatch(a + b, |a| + i);
    }
  }

  /** The match case of `ScanSuffix`: both scans report the same capture. */
  lemma {:induction false} ScanSuffixAtMatch(a: string, b: string, i: nat)
    requires i < |b| && MatchAt(b, i).Some?
    ensures Scan(a + b, |a| + i) == Scan(b, i)
    decreases |b| - i, 0
  {
    var m := MatchAt(b, i).value;
    MatchAtShift(a, b, i);
    ScanSuffix(a, b, m.end);
    ScanAtMatch(b, i);
    ScanAtMatch(a + b, |a| + i);
  }

  lemma {:induction false} PlainFrom(a: string, rest: string, i: nat)
    requires i <= |a|
    requires forall j :: 0 <= j < |a| ==> a[j] != '['
    ensures Scan(a + rest, i) == Scan(rest, 0)
    decreases |a| - i
  {
    if i == |a| {
      ScanSuffix(a, rest, 0);
    } else {
      assert (a + rest)[i] == a[i];
      PlainFrom(a, rest, i + 1);
    }
  }

  /** Text without any `[` in front of the rest adds no link and hides none. */
  lemma PlainThen(a: string, rest: string)
    requires forall j :: 0 <= j < |a| ==> a[j] != '['
    ensures Scan(a + rest, 0) == Scan(rest, 0)
  {
    PlainFrom(a, rest, 0);
  }

  /** A complete link in front of the rest contributes its target and nothing else. */
  lemma LinkThen(inner: string, rest: string)
    requires |inner| >= 1 && NoBrackets(inner)
    ensures Scan("[[" + inner + "]]" + rest, 0) == [Target(inner)] + Scan(rest, 0)
  {
    var link := "[[" + inner + "]]";
    var s := link + rest;
    var q := |inner| + 2;
    assert s[2..q] == inner;
    assert s[q] == ']' && s[q + 1] == ']';
    RunEndOfClean(s, 2, q);
    assert MatchAt(s, 0) == Some(Match(Target(inner), q + 2));
    ScanSuffix(link, rest, 0);
  }

  /** Without a `|`, the whole interior is the target. */
  lemma TargetWithoutPipe(x: string)
    requires |x| >= 1
    requires forall i :: 0 <= i < |x| ==> x[i] != '|'
    ensures Target(x) == x
  {
  }

  /** With a `|` after a pipe-free target, the display part is dropped. */
  lemma TargetWithPipe(x: string, y: string)
    requires |x| >= 1
    requires forall i :: 0 <= i < |x| ==> x[i] != '|'
    ensures Target(x + "|" + y) == x
  {
    var inner := x + "|" + y;
    var k := PipeFrom(inner, 1);
    assert inner[|x|] == '|';
  }

  /** `[[X]]` links to exactly `X`. */
  lemma SingleLink(x: string)
    requires x != [] && NoBrackets(x)
    requires forall i :: 0 <= i < |x| ==> x[i] != '|'
    ensures Links("[[" + x + "]]") == {x}
  {
    LinkThen(x, "");
    assert "[[" + x + "]]" + "" == "[[" + x + "]]";
    assert Scan("", 0) == [];
    TargetWithoutPipe(x);
  }

  /** `[[X|Y]]` links to exactly `X`: the display part `Y` is discarded. */
  lemma PipedLink(x: string, y: string)
    requires x != [] && NoBrackets(x) && NoBrackets(y)
    requires forall i :: 0 <= i < |x| ==> x[i] != '|'
    ensures Links("[[" + x + "|" + y + "]]") == {x}
  {
    var inner := x + "|" + y;
    assert NoBrackets(inner) by {
      forall i | 0 <= i < |inner|
        ensures !IsBracket(inner[i])
      {
        if i < |x| { assert inner[i] == x[i]; }
        else if i > |x| { assert inner[i] == y[i - |x| - 1]; }
      }
    }
    LinkThen(inner, "");
    assert "[[" + inner + "]]" + "" == "[[" + x + "|" + y + "]]";
    assert Scan("", 0) == [];
    TargetWithPipe(x, y);
  }

  /** The same target linked twice, with and without a display part, is one element of the set. */
  lemma RepeatedLinkCollapses(x: string, y: string)
    requires x != [] && NoBrackets(x) && NoBrackets(y)
    requires forall i :: 0 <= i < |x| ==> x[i] != '|'
    ensures Links("[[" + x + "]]" + "[[" + x + "|" + y + "]]") == {x}
  {
    var inner := x + "|" + y;
    assert NoBrackets(inner) by {
      forall i | 0 <= i < |inner|
        ensures !IsBracket(inner[i])
      {
        if i < |x| { assert inner[i] == x[i]; }
        else if i > |x| { assert inner[i] == y[i - |x| - 1]; }
      }
    }
    var first := "[[" + x + "]]";
    var second := "[[" + inner + "]]";
    assert first + second == "[[" + x + "]]" + "[[" + x + "|" + y + "]]";
    LinkThen(x, second);
    TargetWithoutPipe(x);
    assert Scan(first + second, 0) == [x] + Scan(second, 0);
    LinkThen(inner, "");
    TargetWithPipe(x, y);
    assert second + "" == second;
    assert Scan("", 0) == [];
    assert Scan(second, 0) == [x];
    var r := Scan(first + second, 0);
    assert r == [x, x];
    assert Links(first + second) == {x};

  }

  /**
   * Two links in running text, the first with a display part: both targets,
   * and nothing else, are found.
   */
  lemma TwoLinksInText(pre: string, x: string, y: string, mid: string, z: string, post: string)
    requires forall i :: 0 <= i < |pre| ==> pre[i] != '['
    requires forall i :: 0 <= i < |mid| ==> mid[i] != '['
    requires forall i :: 0 <= i < |post| ==> post[i] != '['
    requires x != [] && NoBrackets(x) && NoBrackets(y) && z != [] && NoBrackets(z)
    requires forall i :: 0 <= i < |x| ==> x[i] != '|'
    requires forall i :: 0 <= i < |z| ==> z[i] != '|'
    ensures Links(pre + "[[" + x + "|" + y + "]]" + mid + "[[" + z + "]]" + post) == {x, z}
  {
    var piped := x + "|" + y;
    assert NoBrackets(piped) by {
      forall i | 0 <= i < |piped|
        ensures !IsBracket(piped[i])
      {
        if i < |x| { assert piped[i] == x[i]; }
        else if i > |x| { assert piped[i] == y[i - |x| - 1]; }
      }
    }
    var tail := "[[" + z + "]]" + post;
    var middle := "[[" + piped + "]]" + (mid + tail);
    var s := pre + middle;
    assert pre + "[[" + x + "|" + y + "]]" + mid + "[[" + z + "]]" + post == s;
    PlainThen(pre, middle);
    LinkThen(piped, mid + tail);
    TargetWithPipe(x, y);
    PlainThen(mid, tail);
    LinkThen(z, post);
    TargetWithoutPipe(z);
    ScanWithoutOpener(post, 0);
    assert Scan(s, 0) == [x, z];
  }

  /** Two links in a sentence, one with a display part: the set holds both targets. */
  lemma RunningTextExample()
    ensures Links("See " + "[[" + "Rust (programming language)" + "|" + "Rust" + "]]"
                  + " and " + "[[" + "WebAssembly" + "]]" + ".")
         == {"Rust (programming language)", "WebAssembly"}
  {
    TwoLinksInText("See ", "Rust (programming language)", "Rust", " and ", "WebAssembly", ".");
  }

  /** An empty interior is no link. */
  lemma EmptyInteriorNoLink()
    ensures Links("[[]]") == {}
  {
    assert RunEnd("[[]]", 2) == 2;
    assert Scan("[[]]", 0) == Scan("[[]]", 1);
    ScanWithoutOpener("[[]]", 1);
  }

  /** A link closed by a single `]` is no link. */
  lemma UnclosedNoLink()
    ensures Links("[[a]") == {}
  {
    assert RunEnd("[[a]", 2) == 3;
    assert Scan("[[a]", 0) == Scan("[[a]", 1);
    ScanWithoutOpener("[[a]", 1);
  }

  /** With three `[`, the match that fails at the first one is found one position later. */
  lemma ThirdBracketSkipped()
    ensures Links("[[[a]]") == {"a"}
  {
    assert "[" + "[[a]]" == "[[[a]]";
    assert RunEnd("[[[a]]", 2) == 2;
    assert Scan("[[[a]]", 0) == Scan("[[[a]]", 1);
    ScanSuffix("[", "[[a]]", 0);
    assert Scan("[[[a]]", 1) == Scan("[[a]]", 0);
    assert "[[" + "a" + "]]" + "" == "[[a]]";
    LinkThen("a", "");
    TargetWithoutPipe("a");
    assert Scan("", 0) == [];
    assert Scan("[[[a]]", 0) == ["a"];
  }

  /** The target stops at the first `|`; later ones belong to the discarded display part. */
  lemma FirstPipeEndsTarget()
    ensures Links("[[a|b|c]]") == {"a"}
  {
    assert "[[" + "a|b|c" + "]]" + "" == "[[a|b|c]]";
    LinkThen("a|b|c", "");
    assert "a" + "|" + "b|c" == "a|b|c";
    TargetWithPipe("a", "b|c");
    assert Scan("", 0) == [];
    assert Scan("[[a|b|c]]", 0) == ["a"];
  }
}
