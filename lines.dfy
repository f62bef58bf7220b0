/** Newline-delimited text: `split(/\n/)` and `join('\n')` on JavaScript
    strings, the concatenation of streamed chunks, and the text an append
    log's commits leave in a bucket file. */
module Newlines {

  /** `s.split(/\n/)`: the pieces between newlines; always at least one. */
  function Split(s: string): (ps: seq<string>)
    ensures |ps| >= 1
  {
    if s == [] then [""]
    else
      var rest := Split(s[1..]);
      if s[0] == '\n' then [""] + rest
      else [[s[0]] + rest[0]] + rest[1..]
  }

  /** No piece holds a newline, and there is more than one piece exactly
      when the string holds a newline. */
  lemma {:induction false} SplitPieces(s: string)
    ensures NoNewlines(Split(s))
    ensures |Split(s)| == 1 <==> '\n' !in s
  {
    if s != [] {
      SplitPieces(s[1..]);
      assert s == [s[0]] + s[1..];
      var rest := Split(s[1..]);
      if s[0] != '\n' {
        assert '\n' !in [s[0]] + rest[0];
      }
    }
  }

  /** `ps.join('\n')`. */
  function Join(ps: seq<string>): string
  {
    if |ps| == 0 then ""
    else if |ps| == 1 then ps[0]
    else ps[0] + "\n" + Join(ps[1..])
  }

  function Last(ps: seq<string>): string
    requires |ps| >= 1
  {
    ps[|ps| - 1]
  }

  predicate NoNewlines(lines: seq<string>)
  {
    forall i | 0 <= i < |lines| :: '\n' !in lines[i]
  }

  /** Joining the pieces of a split gives the string back. */
  lemma {:induction false} JoinSplit(s: string)
    ensures Join(Split(s)) == s
  {
    if s != [] {
      JoinSplit(s[1..]);
      var rest := Split(s[1..]);
      if s[0] == '\n' {
        assert Split(s)[1..] == rest;
      } else {
        var ps := Split(s);
        assert ps[1..] == rest[1..];
        if |rest| == 1 {
          assert Join(ps) == [s[0]] + rest[0];
        } else {
          assert Join(rest) == rest[0] + "\n" + Join(rest[1..]);
        }
      }
    }
  }

  /** A string without a newline splits into itself. */
  lemma SplitNoNewline(s: string)
    requires '\n' !in s
    ensures Split(s) == [s]
  {
    if s != [] {
      assert '\n' !in s[1..] by {
        forall i | 0 <= i < |s[1..]| ensures s[1..][i] != '\n' {
          assert s[1..][i] == s[i + 1];
        }
      }
      SplitNoNewline(s[1..]);
      assert [s[0]] + s[1..] == s;
    }
  }

  /** One step of `Split`: how a leading character joins the pieces of the rest. */
  lemma SplitCons(c: char, s: string)
    ensures c == '\n' ==> Split([c] + s) == [""] + Split(s)
    ensures c != '\n' ==> Split([c] + s) == [[c] + Split(s)[0]] + Split(s)[1..]
  {
    assert ([c] + s)[1..] == s;
  }

  /** Sequence bookkeeping for `SplitAppend` when the first piece of `a`
      does not reach its end. */
  lemma GlueFirstPiece(p: string, ra: seq<string>, rb: seq<string>, rab: seq<string>)
    requires |ra| > 1 && |rb| >= 1
    requires rab == ra[..|ra| - 1] + [Last(ra) + rb[0]] + rb[1..]
    ensures [p + rab[0]] + rab[1..]
         == ([p + ra[0]] + ra[1..])[..|ra| - 1] + [Last(ra) + rb[0]] + rb[1..]
  {
    var sa := [p + ra[0]] + ra[1..];
    assert rab[0] == ra[0];
    assert rab[1..] == ra[1..|ra| - 1] + [Last(ra) + rb[0]] + rb[1..];
    assert sa[..|ra| - 1] == [p + ra[0]] + ra[1..|ra| - 1];
  }

  /** How a split of a concatenation decomposes: the last piece of `a` is
      glued to the first piece of `b`. This is the fact behind reassembling
      lines from arbitrarily cut chunks. */
  lemma {:induction false} SplitAppend(a: string, b: string)
    ensures Split(a + b)
         == Split(a)[..|Split(a)| - 1] + [Last(Split(a)) + Split(b)[0]] + Split(b)[1..]
  {
    var rb := Split(b);
    if a == [] {
      assert a + b == b;
      assert "" + rb[0] == rb[0];
      assert rb == [] + [rb[0]] + rb[1..];
    } else {
      var c, a' := a[0], a[1..];
      assert a == [c] + a';
      assert a + b == [c] + (a' + b);
      SplitAppend(a', b);
      SplitCons(c, a');
      SplitCons(c, a' + b);
      var ra, rab := Split(a'), Split(a' + b);
      if c == '\n' {
        GlueNewline(ra, rb, rab);
      } else if |ra| == 1 {
        GlueSingle([c], ra, rb, rab);
      } else {
        GlueFirstPiece([c], ra, rb, rab);
      }
    }
  }

  /** Sequence bookkeeping for `SplitAppend` when `a` starts with a newline. */
  lemma GlueNewline(ra: seq<string>, rb: seq<string>, rab: seq<string>)
    requires |ra| >= 1 && |rb| >= 1
    requires rab == ra[..|ra| - 1] + [Last(ra) + rb[0]] + rb[1..]
    ensures [""] + rab == ([""] + ra)[..|ra|] + [Last([""] + ra) + rb[0]] + rb[1..]
  {
    assert ([""] + ra)[..|ra|] == [""] + ra[..|ra| - 1];
  }

  /** Sequence bookkeeping for `SplitAppend` when `a` holds no newline. */
  lemma GlueSingle(p: string, ra: seq<string>, rb: seq<string>, rab: seq<string>)
    requires |ra| == 1 && |rb| >= 1
    requires rab == ra[..|ra| - 1] + [Last(ra) + rb[0]] + rb[1..]
    ensures [p + rab[0]] + rab[1..]
         == ([p + ra[0]] + ra[1..])[..0] + [Last([p + ra[0]] + ra[1..]) + rb[0]] + rb[1..]
  {
    assert rab == [ra[0] + rb[0]] + rb[1..];
    assert p + (ra[0] + rb[0]) == (p + ra[0]) + rb[0];
  }

  /** Concatenation of the chunks a stream delivers, in order. */
  function Concat(chunks: seq<string>): string
  {
    if chunks == [] then "" else Concat(chunks[..|chunks| - 1]) + chunks[|chunks| - 1]
  }

  /** The lines a reader reports for a whole text: every newline-terminated
      piece, then the trailing fragment only when it is not empty. */
  function Lines(text: string): seq<string>
  {
    var ps := Split(text);
    ps[..|ps| - 1] + (if Last(ps) != "" then [Last(ps)] else [])
  }

  /** The text of a file holding `lines`, each terminated by a newline. */
  function Unlines(lines: seq<string>): string
  {
    if lines == [] then "" else lines[0] + "\n" + Unlines(lines[1..])
  }

  lemma {:induction false} UnlinesAppend(a: seq<string>, b: seq<string>)
    ensures Unlines(a + b) == Unlines(a) + Unlines(b)
  {
    if a != [] {
      assert (a + b)[1..] == a[1..] + b;
      UnlinesAppend(a[1..], b);
    } else {
      assert a + b == b;
    }
  }

  /** What an append-log commit writes, `queue.join('\n') + '\n'`, is the
      newline-terminated text of the queue. */
  lemma {:induction false} JoinNewlineIsUnlines(q: seq<string>)
    requires q != []
    ensures Join(q) + "\n" == Unlines(q)
  {
    if |q| > 1 {
      JoinNewlineIsUnlines(q[1..]);
    }
  }

  /** Newline-terminated lines split back into those lines and one empty fragment. */
  lemma {:induction false} SplitUnlines(lines: seq<string>)
    requires NoNewlines(lines)
    ensures Split(Unlines(lines)) == lines + [""]
  {
    if lines != [] {
      SplitUnlines(lines[1..]);
      SplitLineThenRest(lines[0], Unlines(lines[1..]));
      assert lines == [lines[0]] + lines[1..];
    }
  }

  /** A line without a newline, a newline, then the rest: the line is the
      first piece. */
  lemma SplitLineThenRest(line: string, rest: string)
    requires '\n' !in line
    ensures Split(line + "\n" + rest) == [line] + Split(rest)
  {
    SplitNoNewline(line);
    assert Split("\n" + rest) == [""] + Split(rest) by {
      assert ("\n" + rest)[1..] == rest;
    }
    assert line + "\n" + rest == line + ("\n" + rest);
    SplitAppend(line, "\n" + rest);
    assert line + "" == line;
  }

  /** Reading a file of newline-terminated lines yields exactly those lines. */
  lemma LinesUnlines(lines: seq<string>)
    requires NoNewlines(lines)
    ensures Lines(Unlines(lines)) == lines
  {
    SplitUnlines(lines);
  }
}
