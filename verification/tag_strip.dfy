/** The tooltip text of a card (src/components/Card.tsx):
    the description with every match of the global pattern /<[^>]+>/
    replaced by nothing. A match is '<', one or more
    characters other than '>', then '>'. Since the middle part cannot run
    past a '>', a match starting at a '<' can only end at the first '>'
    after it. The global replace scans left to right, removes each match
    and resumes after it, and keeps every character where no match starts. */
module TagStrip {
  import opened Types

  /** Index of the first '>' in `s` at or after `from`. */
  function FirstClose(s: string, from: nat): (r: Option<nat>)
    ensures r.Some? ==> from <= r.value < |s| && s[r.value] == '>'
    ensures r.Some? ==> forall j :: from <= j < r.value ==> s[j] != '>'
    ensures r.None? ==> forall j :: from <= j < |s| ==> s[j] != '>'
    decreases |s| - from
  {
    if from >= |s| then None
    else if s[from] == '>' then Some(from)
    else FirstClose(s, from + 1)
  }

  /** Where the match starting at the head of `s` closes, if one starts there. */
  function TagEnd(s: string): (r: Option<nat>)
    ensures r.Some? ==> 2 <= r.value < |s| && IsTag(s[..r.value + 1])
    ensures r.Some? ==> forall n :: 0 < n <= |s| && IsTag(s[..n]) ==> n == r.value + 1
    ensures r.None? ==> forall n :: 0 < n <= |s| ==> !IsTag(s[..n])
  {
    if |s| >= 2 && s[0] == '<' && s[1] != '>' then FirstClose(s, 2) else None
  }

  /** A string the pattern matches as a whole. */
  predicate IsTag(t: string) {
    && |t| >= 3
    && t[0] == '<'
    && t[|t| - 1] == '>'
    && forall j :: 1 <= j < |t| - 1 ==> t[j] != '>'
  }

  /** The replacement, scanning from the left. The result is never longer
      than the input, and an input without '<' comes back unchanged. */
  function StripTags(s: string): (r: string)
    ensures |r| <= |s|
    ensures (forall i :: 0 <= i < |s| ==> s[i] != '<') ==> r == s
    decreases |s|
  {
    if s == [] then []
    else match TagEnd(s)
      case Some(k) => StripTags(s[k + 1..])
      case None => [s[0]] + StripTags(s[1..])
  }

  /** `a` can be obtained from `b` by deleting characters. */
  predicate IsSubsequence(a: string, b: string)
    decreases |b|
  {
    if b == [] then a == []
    else IsSubsequence(a, b[1..]) || (a != [] && a[0] == b[0] && IsSubsequence(a[1..], b[1..]))
  }

  /** No match of the pattern starts anywhere in `s`. */
  predicate NoTags(s: string)
    decreases |s|
  {
    s == [] || (TagEnd(s).None? && NoTags(s[1..]))
  }

  lemma {:induction false} SubsequenceOfSuffix(a: string, b: string, k: nat)
    requires k <= |b| && IsSubsequence(a, b[k..])
    ensures IsSubsequence(a, b)
    decreases k
  {
    if k > 0 {
      assert b[k - 1..][1..] == b[k..];
      SubsequenceOfSuffix(a, b, k - 1);
    }
  }

  /** Stripping only deletes characters: what is left keeps its order. */
  lemma {:induction false} StripTagsSubsequence(s: string)
    ensures IsSubsequence(StripTags(s), s)
    decreases |s|
  {
    if s != [] {
      match TagEnd(s)
      case Some(k) =>
        StripTagsSubsequence(s[k + 1..]);
        SubsequenceOfSuffix(StripTags(s), s, k + 1);
      case None =>
        StripTagsSubsequence(s[1..]);
        var r := StripTags(s);
        assert r[1..] == StripTags(s[1..]);
    }
  }

  lemma {:induction false} SubsequenceKeepsAbsence(a: string, b: string, c: char)
    requires IsSubsequence(a, b)
    requires forall i :: 0 <= i < |b| ==> b[i] != c
    ensures forall i :: 0 <= i < |a| ==> a[i] != c
    decreases |b|
  {
    if b != [] {
      if IsSubsequence(a, b[1..]) {
        SubsequenceKeepsAbsence(a, b[1..], c);
      } else {
        SubsequenceKeepsAbsence(a[1..], b[1..], c);
        assert forall i :: 1 <= i < |a| ==> a[i] == a[1..][i - 1];
      }
    }
  }

  /** A string with no tag in it is left as it is. */
  lemma {:induction false} StripTagsOfNoTags(s: string)
    requires NoTags(s)
    ensures StripTags(s) == s
    decreases |s|
  {
    if s != [] {
      StripTagsOfNoTags(s[1..]);
    }
  }

  /** No match of the pattern survives: the tooltip text contains no tag. */
  lemma {:induction false} StripTagsLeavesNoTags(s: string)
    ensures NoTags(StripTags(s))
    decreases |s|
  {
    if s != [] {
      match TagEnd(s)
      case Some(k) =>
        StripTagsLeavesNoTags(s[k + 1..]);
      case None =>
        var rest := StripTags(s[1..]);
        var r := [s[0]] + rest;
        StripTagsLeavesNoTags(s[1..]);
        assert r[1..] == rest;
        if s[0] == '<' {
          if |s| >= 2 && s[1] == '>' {
            // The '>' right after the kept '<' is itself kept.
            assert TagEnd(s[1..]).None?;
            assert rest == [s[1]] + StripTags(s[2..]) by {
              assert s[1..][1..] == s[2..];
            }
            assert r[1] == '>';
          } else {
            // No '>' follows the kept '<', so none follows it in the output.
            assert forall i :: 0 <= i < |s[1..]| ==> s[1..][i] != '>';
            StripTagsSubsequence(s[1..]);
            SubsequenceKeepsAbsence(rest, s[1..], '>');
            assert forall i :: 2 <= i < |r| ==> r[i] == rest[i - 1];
            assert FirstClose(r, 2).None?;
          }
        }
        assert TagEnd(r).None?;
    }
  }

  /** Stripping is idempotent. */
  lemma StripTagsIdempotent(s: string)
    ensures StripTags(StripTags(s)) == StripTags(s)
  {
    StripTagsLeavesNoTags(s);
    StripTagsOfNoTags(StripTags(s));
  }

  /** A string is left unchanged exactly when no tag starts anywhere in it. */
  lemma {:induction false} StripTagsFixedExactly(s: string)
    ensures StripTags(s) == s <==> NoTags(s)
    decreases |s|
  {
    if NoTags(s) {
      StripTagsOfNoTags(s);
    } else if s != [] {
      match TagEnd(s)
      case Some(k) =>
        assert |StripTags(s)| <= |s[k + 1..]| < |s|;
      case None =>
        StripTagsFixedExactly(s[1..]);
        assert StripTags(s)[1..] == StripTags(s[1..]);
    }
  }

  /** A tag at the head of the text is removed whole and scanning resumes
      right after it. */
  lemma TagIsRemoved(tag: string, rest: string)
    requires IsTag(tag)
    ensures StripTags(tag + rest) == StripTags(rest)
  {
    var s := tag + rest;
    assert s[..|tag|] == tag;
    assert FirstClose(s, 2) == Some(|tag| - 1) by {
      assert forall j :: 2 <= j < |tag| - 1 ==> s[j] == tag[j];
    }
    assert s[|tag|..] == rest;
  }

  /** The character at the head is kept whenever no match starts there,
      whatever follows it; with `TagIsRemoved` this pins the scan through
      `IsTag` alone. */
  lemma UnmatchedHeadKept(s: string)
    requires s != [] && forall n :: 0 < n <= |s| ==> !IsTag(s[..n])
    ensures StripTags(s) == [s[0]] + StripTags(s[1..])
  {
    assert TagEnd(s).None?;
  }

  /** A bare "<>" starts no match and stays, even in front of a tag. */
  lemma EmptyBracketsBeforeTagKept()
    ensures StripTags("<><i>") == "<>"
  {
    var s := "<><i>";
    // Every prefix long enough to be a tag has '>' at its second position.
    assert forall n :: 0 < n <= |s| ==> !IsTag(s[..n]) by {
      forall n | 0 < n <= |s| ensures !IsTag(s[..n]) {
        if n >= 3 {
          assert s[..n][1] == '>';
        }
      }
    }
    UnmatchedHeadKept(s);
    assert s[1..] == ">" + "<i>";
    PlainPrefixKept(">", "<i>");
    TagIsRemoved("<i>", "");
    assert "<i>" + "" == "<i>";
  }

  /** A character other than '<' starts no match and is kept. */
  lemma KeptHead(c: char, y: string)
    requires c != '<'
    ensures StripTags([c] + y) == [c] + StripTags(y)
  {
    var s := [c] + y;
    assert s[0] == c && s[1..] == y;
  }

  /** Text in which no '<' occurs is kept as it is, in front of whatever
      stripping the rest gives: characters where no match can start are
      never removed. */
  lemma {:induction false} PlainPrefixKept(x: string, y: string)
    requires forall i :: 0 <= i < |x| ==> x[i] != '<'
    ensures StripTags(x + y) == x + StripTags(y)
    decreases |x|
  {
    if x == [] {
      assert x + y == y;
    } else {
      var rest := x[1..];
      assert forall i :: 0 <= i < |rest| ==> rest[i] != '<' by {
        assert forall i :: 0 <= i < |rest| ==> rest[i] == x[i + 1];
      }
      PlainPrefixKept(rest, y);
      KeptInFront(x[0], rest, y);
      assert x == [x[0]] + rest;
    }
  }

  /** One more kept character in front of a kept prefix. */
  lemma KeptInFront(c: char, x: string, y: string)
    requires c != '<'
    requires StripTags(x + y) == x + StripTags(y)
    ensures StripTags([c] + x + y) == [c] + x + StripTags(y)
  {
    ConsAssoc(c, x, y);
    ConsAssoc(c, x, StripTags(y));
    KeptHead(c, x + y);
  }

  lemma ConsAssoc(c: char, x: string, y: string)
    ensures [c] + x + y == [c] + (x + y)
  {
  }

  /** "<>" has nothing between the brackets and is kept, as is "a<b",
      which is never closed; in "<i>x" the tag goes and "x" stays. */
  lemma Examples()
    ensures StripTags("<>") == "<>"
    ensures StripTags("a<b") == "a<b"
    ensures StripTags("<i>x") == "x"
  {
    TagIsRemoved("<i>", "x");
    assert "<i>x" == "<i>" + "x";
  }

  /** In "a<i>b" the tag goes and the text on both sides of it stays. */
  lemma TextAroundTagKept()
    ensures StripTags("a<i>b") == "ab"
  {
    TagIsRemoved("<i>", "b");
    assert "<i>b" == "<i>" + "b";
    PlainPrefixKept("a", "<i>b");
    assert "a<i>b" == "a" + "<i>b";
    assert "a" + "b" == "ab";
  }
}
