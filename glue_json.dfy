/**
 * Line-record framing of the JSON data type used for the AWS Glue data
 * catalog: a storage object holds one JSON document per line.
 *
 * `Split` cuts a buffer at every newline and yields the non-empty lines in
 * order; `Join` terminates every record with a newline, the last one
 * included, and concatenates the results. Buffers are modelled as character
 * sequences: the UTF-8 decode and encode around both operations are the
 * identity here.
 */
module GlueJson {

  type Buffer = string

  /** The character `split` cuts at. */
  const Separator: char := '\n'

  /** The one-character buffer `join` appends after each record. */
  const NewLine: Buffer := [Separator]

  /** `Array.prototype.reduce` without an initial value throws on an empty array. */
  datatype JoinError = ReduceOfEmptyArray

  datatype Result<T, E> = Success(value: T) | Failure(error: E)

  // ---------------------------------------------------------------------
  // Generic sequence helpers
  // ---------------------------------------------------------------------

  /** Sum of the lengths of the sequences. */
  function TotalLength<T>(xss: seq<seq<T>>): nat
  {
    if xss == [] then 0 else |xss[0]| + TotalLength(xss[1..])
  }

  /**
   * Concatenation of a list of sequences, front to back (`Buffer.concat`):
   * the result is as long as all of them together, and it is empty exactly
   * when each of them is.
   */
  function Flatten<T>(xss: seq<seq<T>>): (r: seq<T>)
    ensures |r| == TotalLength(xss)
    ensures r == [] <==> forall xs <- xss :: xs == []
  {
    if xss == [] then []
    else
      assert forall xs <- xss :: xs == xss[0] || xs in xss[1..];
      assert xss[0] in xss && forall xs <- xss[1..] :: xs in xss;
      xss[0] + Flatten(xss[1..])
  }

  lemma {:induction false} FlattenAppend<T>(a: seq<seq<T>>, b: seq<seq<T>>)
    ensures Flatten(a + b) == Flatten(a) + Flatten(b)
  {
    if a == [] {
      assert a + b == b;
    } else {
      assert (a + b)[1..] == a[1..] + b;
      FlattenAppend(a[1..], b);
    }
  }

  /**
   * `xss.reduce((a, b) => a.concat(b))`: a left fold with no initial value,
   * so the array must not be empty. It concatenates the same as `Flatten`.
   */
  function Reduce<T>(xss: seq<seq<T>>): (r: seq<T>)
    requires |xss| > 0
    ensures r == Flatten(xss)
  {
    if |xss| == 1 then
      assert xss == [xss[0]];
      assert Flatten(xss[1..]) == [];
      xss[0]
    else
      var init := xss[..|xss| - 1];
      assert xss == init + [xss[|xss| - 1]];
      FlattenAppend(init, [xss[|xss| - 1]]);
      assert Flatten([xss[|xss| - 1]]) == xss[|xss| - 1] + Flatten<T>([]);
      Reduce(init) + xss[|xss| - 1]
  }

  // ---------------------------------------------------------------------
  // split
  // ---------------------------------------------------------------------

  /**
   * `s.split('\n')`: the pieces between separators, always at least one.
   * A string without separators is one piece; a trailing separator leaves
   * an empty last piece.
   */
  function Pieces(s: Buffer): (r: seq<Buffer>)
    ensures |r| >= 1
  {
    if s == [] then [[]]
    else
      var rest := Pieces(s[1..]);
      if s[0] == Separator then [[]] + rest
      else [[s[0]] + rest[0]] + rest[1..]
  }

  /** Glue pieces back together with a separator between neighbours. */
  function Intercalate(ps: seq<Buffer>): (r: Buffer)
    requires |ps| >= 1
  {
    if |ps| == 1 then ps[0] else ps[0] + NewLine + Intercalate(ps[1..])
  }

  /** The non-empty strings of `xs`, in their original order. */
  function NonEmpty(xs: seq<Buffer>): (r: seq<Buffer>)
    ensures |r| <= |xs|
    ensures forall x <- r :: |x| > 0 && x in xs
  {
    if xs == [] then []
    else
      var last := xs[|xs| - 1];
      var init := NonEmpty(xs[..|xs| - 1]);
      assert forall x <- init :: x in xs by {
        forall x <- init ensures x in xs {
          var k :| 0 <= k < |xs| - 1 && xs[..|xs| - 1][k] == x;
          assert xs[k] == x;
        }
      }
      init + (if |last| > 0 then [last] else [])
  }

  /** The records `split` yields: the non-empty lines. */
  function Records(b: Buffer): seq<Buffer>
  {
    NonEmpty(Pieces(b))
  }

  /** What a list of records must satisfy to survive a `join` then `split`. */
  predicate WellFormedRecords(rs: seq<Buffer>)
  {
    forall r <- rs :: |r| > 0 && Separator !in r
  }

  /** `s` with every separator removed. */
  function Strip(s: Buffer): Buffer
  {
    if s == [] then [] else (if s[0] == Separator then [] else [s[0]]) + Strip(s[1..])
  }

  /**
   * The pieces contain no separator and, put back together with separators,
   * give the input: `Pieces` is the inverse of `Intercalate`.
   */
  lemma {:induction false} PiecesInverse(s: Buffer)
    ensures Intercalate(Pieces(s)) == s
    ensures forall p <- Pieces(s) :: Separator !in p
  {
    if s != [] {
      var rest := Pieces(s[1..]);
      PiecesInverse(s[1..]);
      if s[0] == Separator {
        assert Pieces(s) == [[]] + rest;
        assert ([[]] + rest)[1..] == rest;
        assert s == [] + NewLine + s[1..];
      } else {
        var r := Pieces(s);
        assert r == [[s[0]] + rest[0]] + rest[1..];
        assert rest[0] in rest;
        forall p <- r ensures Separator !in p {
          if p != r[0] {
            var k :| 0 <= k < |r| && r[k] == p;
            assert p == rest[k];
          }
        }
        if |rest| == 1 {
          assert r == [[s[0]] + rest[0]];
        } else {
          assert r[1..] == rest[1..];
          assert Intercalate(rest) == rest[0] + NewLine + Intercalate(rest[1..]);
        }
      }
    }
  }

  /** A string without separators is a single piece. */
  lemma {:induction false} PiecesOfLine(r: Buffer)
    requires Separator !in r
    ensures Pieces(r) == [r]
  {
    if r != [] {
      assert r[0] in r;
      assert forall c <- r[1..] :: c in r;
      PiecesOfLine(r[1..]);
      assert [r[0]] + r[1..] == r;
    }
  }

  /** A separator-free prefix followed by a separator becomes the first piece. */
  lemma {:induction false} PiecesAfterLine(r: Buffer, t: Buffer)
    requires Separator !in r
    ensures Pieces(r + NewLine + t) == [r] + Pieces(t)
  {
    if r == [] {
      assert r + NewLine + t == [Separator] + t;
      assert ([Separator] + t)[1..] == t;
    } else {
      assert (r + NewLine + t)[1..] == r[1..] + NewLine + t;
      PiecesAfterLine(r[1..], t);
      assert [r[0]] + r[1..] == r;
    }
  }

  /** Separator-free pieces are recovered exactly by `Pieces` after `Intercalate`. */
  lemma {:induction false} PiecesUnique(ps: seq<Buffer>)
    requires |ps| >= 1
    requires forall p <- ps :: Separator !in p
    ensures Pieces(Intercalate(ps)) == ps
  {
    if |ps| == 1 {
      PiecesOfLine(ps[0]);
    } else {
      assert ps[0] in ps;
      PiecesUnique(ps[1..]);
      PiecesAfterLine(ps[0], Intercalate(ps[1..]));
      assert ps == [ps[0]] + ps[1..];
    }
  }

  lemma {:induction false} NonEmptyAppend(xs: seq<Buffer>, ys: seq<Buffer>)
    ensures NonEmpty(xs + ys) == NonEmpty(xs) + NonEmpty(ys)
    decreases |ys|
  {
    if ys == [] {
      assert xs + ys == xs;
    } else {
      var n := |ys| - 1;
      var last := ys[n];
      var tail := if |last| > 0 then [last] else [];
      calc {
        NonEmpty(xs + ys);
        { assert (xs + ys)[..|xs + ys| - 1] == xs + ys[..n];
          assert (xs + ys)[|xs + ys| - 1] == last; }
        NonEmpty(xs + ys[..n]) + tail;
        { NonEmptyAppend(xs, ys[..n]); }
        NonEmpty(xs) + NonEmpty(ys[..n]) + tail;
        NonEmpty(xs) + (NonEmpty(ys[..n]) + tail);
      }
    }
  }

  lemma {:induction false} NonEmptyOfNonEmpty(xs: seq<Buffer>)
    requires forall x <- xs :: |x| > 0
    ensures NonEmpty(xs) == xs
  {
    if xs != [] {
      var n := |xs| - 1;
      assert xs[n] in xs;
      NonEmptyOfNonEmpty(xs[..n]);
      assert xs[..n] + [xs[n]] == xs;
    }
  }

  lemma {:induction false} FlattenNonEmpty(xs: seq<Buffer>)
    ensures Flatten(NonEmpty(xs)) == Flatten(xs)
  {
    if xs != [] {
      var n := |xs| - 1;
      var last := if |xs[n]| > 0 then [xs[n]] else [];
      FlattenNonEmpty(xs[..n]);
      FlattenAppend(NonEmpty(xs[..n]), last);
      FlattenAppend(xs[..n], [xs[n]]);
      assert xs[..n] + [xs[n]] == xs;
      assert Flatten([xs[n]]) == xs[n] + Flatten<char>([]);
    }
  }

  lemma {:induction false} FlattenPieces(s: Buffer)
    ensures Flatten(Pieces(s)) == Strip(s)
  {
    if s != [] {
      var rest := Pieces(s[1..]);
      FlattenPieces(s[1..]);
      if s[0] == Separator {
        assert ([[]] + rest)[1..] == rest;
      } else {
        var r := [[s[0]] + rest[0]] + rest[1..];
        assert r[1..] == rest[1..];
        assert rest == [rest[0]] + rest[1..];
        assert Flatten(rest) == rest[0] + Flatten(rest[1..]);
      }
    }
  }

  lemma {:induction false} StripEmpty(s: Buffer)
    ensures Strip(s) == [] <==> forall c <- s :: c == Separator
  {
    if s != [] {
      StripEmpty(s[1..]);
      assert forall c <- s :: c == s[0] || c in s[1..];
      assert s[0] in s;
      assert forall c <- s[1..] :: c in s;
    }
  }

  lemma FlattenEmpty(xs: seq<Buffer>)
    requires forall x <- xs :: |x| > 0
    ensures Flatten(xs) == [] <==> xs == []
  {
  }

  /** Every record `split` yields is non-empty and contains no newline. */
  lemma RecordsWellFormed(b: Buffer)
    ensures WellFormedRecords(Records(b))
  {
    PiecesInverse(b);
  }

  /**
   * `split` keeps every non-newline character, in order: the records
   * concatenated are the buffer with its newlines removed.
   */
  lemma RecordsKeepContent(b: Buffer)
    ensures Flatten(Records(b)) == Strip(b)
  {
    FlattenNonEmpty(Pieces(b));
    FlattenPieces(b);
  }

  /** A non-empty buffer without a newline is exactly one record. */
  lemma RecordsOfSingleLine(b: Buffer)
    requires b != [] && Separator !in b
    ensures Records(b) == [b]
  {
    PiecesOfLine(b);
    assert [b][..0] == [];
  }

  /** A buffer yields no records exactly when it is made only of newlines. */
  lemma RecordsEmpty(b: Buffer)
    ensures Records(b) == [] <==> forall c <- b :: c == Separator
  {
    RecordsKeepContent(b);
    StripEmpty(b);
    FlattenEmpty(Records(b));
  }

  /**
   * The generator of `JsonDataType.split`: cut the decoded buffer at every
   * newline and yield each non-empty line, in order.
   */
  method Split(buffer: Buffer) returns (records: seq<Buffer>)
    ensures records == Records(buffer)
    ensures WellFormedRecords(records)
  {
    var lines := Pieces(buffer);
    PiecesInverse(buffer);
    records := [];
    for i := 0 to |lines|
      invariant records == NonEmpty(lines[..i])
      invariant WellFormedRecords(records)
    {
      var line := lines[i];
      assert line in lines;
      assert lines[..i + 1][..i] == lines[..i];
      if |line| > 0 {
        records := records + [line];
      }
    }
    assert lines[..|lines|] == lines;
  }

  // ---------------------------------------------------------------------
  // join
  // ---------------------------------------------------------------------

  /** The `map` callback: `i < buffers.length ? [buf, newLine] : [buf]`. */
  function Frame(buf: Buffer, i: int, count: int): (r: seq<Buffer>)
    ensures |r| >= 1 && r[0] == buf
    ensures r == [buf, NewLine] <==> i < count
  {
    if i < count then [buf, NewLine] else [buf]
  }

  /** `buffers.map(Frame)`; the guard holds for every index, so every record is framed. */
  function Framed(buffers: seq<Buffer>): (r: seq<seq<Buffer>>)
    ensures |r| == |buffers|
    ensures forall i :: 0 <= i < |r| ==> r[i] == [buffers[i], NewLine]
  {
    seq(|buffers|, i requires 0 <= i < |buffers| => Frame(buffers[i], i, |buffers|))
  }

  /** Reference definition: each record followed by a newline, concatenated. */
  function Terminated(rs: seq<Buffer>): Buffer
  {
    if rs == [] then [] else rs[0] + NewLine + Terminated(rs[1..])
  }

  lemma {:induction false} FramedConcat(rs: seq<Buffer>)
    ensures Flatten(Flatten(Framed(rs))) == Terminated(rs)
  {
    if rs != [] {
      var f := Framed(rs);
      assert f == [[rs[0], NewLine]] + Framed(rs[1..]);
      FlattenAppend([[rs[0], NewLine]], Framed(rs[1..]));
      var inner := Flatten(Framed(rs[1..]));
      assert Flatten([[rs[0], NewLine]]) == [rs[0], NewLine];
      FlattenAppend([rs[0], NewLine], inner);
      assert Flatten([rs[0], NewLine]) == rs[0] + NewLine;
      FramedConcat(rs[1..]);
    }
  }

  /**
   * `JsonDataType.join`: map, reduce, then `Buffer.concat`. It fails on the
   * empty list (reduce without an initial value) and otherwise terminates
   * every record with a newline.
   */
  function Join(buffers: seq<Buffer>): (r: Result<Buffer, JoinError>)
    ensures r.Failure? <==> buffers == []
    ensures r.Success? ==> r.value == Terminated(buffers)
  {
    var framed := Framed(buffers);
    if framed == [] then Failure(ReduceOfEmptyArray)
    else
      FramedConcat(buffers);
      Success(Flatten(Reduce(framed)))
  }

  lemma {:induction false} TerminatedLength(rs: seq<Buffer>)
    ensures |Terminated(rs)| == TotalLength(rs) + |rs|
  {
    if rs != [] {
      TerminatedLength(rs[1..]);
    }
  }

  /** The joined buffer holds every record plus one newline per record. */
  lemma JoinLength(rs: seq<Buffer>)
    requires rs != []
    ensures Join(rs).Success?
    ensures |Join(rs).value| == TotalLength(rs) + |rs|
  {
    TerminatedLength(rs);
  }

  lemma {:induction false} TerminatedEndsWithNewLine(rs: seq<Buffer>)
    requires rs != []
    ensures |Terminated(rs)| > 0 && Terminated(rs)[|Terminated(rs)| - 1] == Separator
  {
    if |rs| > 1 {
      TerminatedEndsWithNewLine(rs[1..]);
    } else {
      assert Terminated(rs) == rs[0] + NewLine;
    }
  }

  /** The last record is newline-terminated too. */
  lemma JoinEndsWithNewLine(rs: seq<Buffer>)
    requires rs != []
    ensures Join(rs).Success?
    ensures var b := Join(rs).value; |b| > 0 && b[|b| - 1] == Separator
  {
    TerminatedEndsWithNewLine(rs);
  }

  lemma {:induction false} PiecesOfTerminated(rs: seq<Buffer>)
    requires WellFormedRecords(rs)
    ensures Pieces(Terminated(rs)) == rs + [[]]
  {
    if rs != [] {
      assert rs[0] in rs;
      PiecesOfTerminated(rs[1..]);
      PiecesAfterLine(rs[0], Terminated(rs[1..]));
      assert rs == [rs[0]] + rs[1..];
    }
  }

  /** Splitting newline-terminated well-formed records gives them back. */
  lemma TerminatedRoundTrip(rs: seq<Buffer>)
    requires WellFormedRecords(rs)
    ensures Records(Terminated(rs)) == rs
  {
    PiecesOfTerminated(rs);
    NonEmptyAppend(rs, [[]]);
    NonEmptyOfNonEmpty(rs);
    assert NonEmpty([[]]) == [];
  }

  /** `split(join(rs)) == rs` for non-empty, newline-free records. */
  lemma RoundTrip(rs: seq<Buffer>)
    requires rs != [] && WellFormedRecords(rs)
    ensures Join(rs).Success?
    ensures Records(Join(rs).value) == rs
  {
    TerminatedRoundTrip(rs);
  }

  /**
   * `split` normalises: joining its records and splitting again gives the
   * same records. Joining fails exactly when the buffer had no records.
   */
  lemma SplitJoinIdempotent(b: Buffer)
    ensures Join(Records(b)).Failure? <==> forall c <- b :: c == Separator
    ensures Join(Records(b)).Success? ==> Records(Join(Records(b)).value) == Records(b)
  {
    RecordsEmpty(b);
    RecordsWellFormed(b);
    TerminatedRoundTrip(Records(b));
  }
}
