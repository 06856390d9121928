/** The JavaScript string operations the two segmenters rely on:
    `String.prototype.startsWith`, `split('\n')`, `Array.prototype.join('\n')`
    and the prefix removal `startsWith(p) ? substring(|p|) : s`. */
module Text {

  const NL: char := '\n'

  predicate StartsWith(s: string, prefix: string) {
    |prefix| <= |s| && s[..|prefix|] == prefix
  }

  /** `s.startsWith(prefix) ? s.substring(|prefix|) : s` */
  function StripPrefix(s: string, prefix: string): (r: string)
    ensures StartsWith(s, prefix) ==> prefix + r == s
    ensures !StartsWith(s, prefix) ==> r == s
  {
    if StartsWith(s, prefix) then s[|prefix|..] else s
  }

  /** `s.split('\n')`: the maximal line-feed-free pieces of `s`, in order.
      The empty string splits to one empty piece. */
  function Split(s: string): (r: seq<string>)
    ensures |r| >= 1
    ensures forall i :: 0 <= i < |r| ==> NL !in r[i]
    decreases |s|
  {
    if s == [] then [""]
    else if s[0] == NL then [""] + Split(s[1..])
    else
      var rest := Split(s[1..]);
      [[s[0]] + rest[0]] + rest[1..]
  }

  /** `lines.join('\n')` */
  function Join(lines: seq<string>): string
  {
    if |lines| == 0 then ""
    else if |lines| == 1 then lines[0]
    else lines[0] + [NL] + Join(lines[1..])
  }

  /** Joining the pieces of a split gives back the string. */
  lemma {:induction false} JoinSplit(s: string)
    ensures Join(Split(s)) == s
    decreases |s|
  {
    if s == [] {
    } else if s[0] == NL {
      var rest := Split(s[1..]);
      JoinSplit(s[1..]);
      assert Split(s) == [""] + rest;
      assert ([""] + rest)[1..] == rest;
    } else {
      var rest := Split(s[1..]);
      JoinSplit(s[1..]);
      var r := [[s[0]] + rest[0]] + rest[1..];
      assert Split(s) == r;
      if |rest| == 1 {
        assert Join(rest) == rest[0];
      } else {
        assert r[1..] == rest[1..];
        assert Join(rest) == rest[0] + [NL] + Join(rest[1..]);
      }
    }
  }

  /** Splitting a join of line-feed-free lines gives back the lines. */
  lemma {:induction false} SplitJoin(lines: seq<string>)
    requires |lines| >= 1
    requires forall i :: 0 <= i < |lines| ==> NL !in lines[i]
    ensures Split(Join(lines)) == lines
    decreases |lines|, |lines[0]|
  {
    var head := lines[0];
    if head == [] {
      if |lines| == 1 {
      } else {
        var s := Join(lines);
        assert s == [NL] + Join(lines[1..]);
        assert s[1..] == Join(lines[1..]);
        SplitJoin(lines[1..]);
        assert Split(s) == [""] + lines[1..];
      }
    } else {
      var s := Join(lines);
      var lines' := [head[1..]] + lines[1..];
      assert forall i :: 0 <= i < |lines'| ==> NL !in lines'[i] by {
        forall i | 0 <= i < |lines'| ensures NL !in lines'[i] {
          if i == 0 { assert forall c :: c in head[1..] ==> c in head; }
        }
      }
      assert lines'[1..] == lines[1..];
      assert Join(lines') == s[1..] by {
        if |lines| == 1 {
        } else {
          assert s == head + [NL] + Join(lines[1..]);
          assert s[1..] == head[1..] + [NL] + Join(lines[1..]);
        }
      }
      assert s[0] == head[0] && head[0] != NL;
      SplitJoin(lines');
      assert [head[0]] + head[1..] == head;
      assert ([head[0]] + lines'[0]) == head;
    }
  }

  /** Joining two non-empty runs of lines puts one line feed between them. */
  lemma {:induction false} JoinAppend(a: seq<string>, b: seq<string>)
    requires |a| >= 1 && |b| >= 1
    ensures Join(a + b) == Join(a) + [NL] + Join(b)
    decreases |a|
  {
    if |a| == 1 {
      assert (a + b)[1..] == b;
    } else {
      assert (a + b)[1..] == a[1..] + b;
      JoinAppend(a[1..], b);
    }
  }

  /** A join begins with its first line. */
  lemma {:induction false} JoinStartsWithFirst(lines: seq<string>)
    requires |lines| >= 1
    ensures StartsWith(Join(lines), lines[0])
  {
    if |lines| > 1 {
      assert Join(lines)[..|lines[0]|] == lines[0];
    }
  }

  /** A string starts with a line-feed-free prefix exactly when its first
      line does. */
  lemma {:induction false} FirstLineStartsWith(s: string, prefix: string)
    requires NL !in prefix
    ensures StartsWith(s, prefix) <==> StartsWith(Split(s)[0], prefix)
    decreases |s|
  {
    if prefix != [] && s != [] && s[0] != NL {
      FirstLineStartsWith(s[1..], prefix[1..]);
      assert Split(s)[0] == [s[0]] + Split(s[1..])[0];
      assert prefix == [prefix[0]] + prefix[1..];
    } else if prefix != [] && s != [] {
      assert prefix[0] in prefix;
    }
  }
}
