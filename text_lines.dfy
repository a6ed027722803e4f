/** `String.prototype.split("\n")` on the fetched payload
    (src/maps/methane-view.ts:12). */
module TextLines {

  /** The pieces of `s` between line feeds, in order. Like JavaScript's `split`
      with a one-character separator, the empty string gives one empty piece and
      a trailing line feed gives a trailing empty piece. */
  function Split(s: string): (lines: seq<string>)
    ensures |lines| >= 1
    ensures forall k :: 0 <= k < |lines| ==> '\n' !in lines[k]
  {
    if s == [] then [""]
    else
      var rest := Split(s[1..]);
      if s[0] == '\n' then [""] + rest
      else [[s[0]] + rest[0]] + rest[1..]
  }

  /** The inverse of Split: the lines glued back together with line feeds. */
  function Join(lines: seq<string>): string
    requires |lines| >= 1
  {
    if |lines| == 1 then lines[0] else lines[0] + "\n" + Join(lines[1..])
  }

  /** Gluing the pieces back together gives the payload back. */
  lemma {:induction false} JoinSplit(s: string)
    ensures Join(Split(s)) == s
  {
    if s != [] {
      var rest := Split(s[1..]);
      JoinSplit(s[1..]);
      if s[0] == '\n' {
        assert Split(s) == [""] + rest;
        assert (Split(s))[1..] == rest;
      } else {
        var lines := Split(s);
        assert lines == [[s[0]] + rest[0]] + rest[1..];
        if |rest| == 1 {
          assert Join(lines) == [s[0]] + rest[0];
        } else {
          assert lines[1..] == rest[1..];
          assert Join(lines) == [s[0]] + rest[0] + "\n" + Join(rest[1..]);
        }
        assert s == [s[0]] + s[1..];
      }
    }
  }

  /** A text without a line feed is a single line. */
  lemma {:induction false} SplitSingle(h: string)
    requires '\n' !in h
    ensures Split(h) == [h]
  {
    if h != [] {
      SplitSingle(h[1..]);
      assert [h[0]] + h[1..] == h;
    }
  }

  /** Splitting after a first line without a line feed yields that line and
      then the lines of the rest. */
  lemma {:induction false} SplitFirstLine(h: string, body: string)
    requires '\n' !in h
    ensures Split(h + "\n" + body) == [h] + Split(body)
  {
    if h == [] {
      assert h + "\n" + body == "\n" + body;
      assert ("\n" + body)[1..] == body;
    } else {
      var s := h + "\n" + body;
      assert s[1..] == h[1..] + "\n" + body;
      SplitFirstLine(h[1..], body);
      assert [h[0]] + h[1..] == h;
    }
  }

  /** Lines without line feeds, once joined, split back into themselves. */
  lemma {:induction false} SplitJoin(lines: seq<string>)
    requires |lines| >= 1
    requires forall k :: 0 <= k < |lines| ==> '\n' !in lines[k]
    ensures Split(Join(lines)) == lines
  {
    if |lines| == 1 {
      SplitSingle(lines[0]);
    } else {
      SplitJoin(lines[1..]);
      SplitFirstLine(lines[0], Join(lines[1..]));
      assert [lines[0]] + lines[1..] == lines;
    }
  }
}
