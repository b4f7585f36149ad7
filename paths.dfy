/** Filesystem paths as sequences of components, and the string splitting
    the views apply to request paths. */
module Paths {

  /** A path is the sequence of its components: `/lib/Album` is ["lib", "Album"]. */
  type Path = seq<string>

  /** Python's `s.split(sep)`: the pieces between separators, empty ones included. */
  function Split(s: string, sep: char): (r: seq<string>)
    ensures |r| >= 1
    ensures forall i :: 0 <= i < |r| ==> sep !in r[i]
  {
    if |s| == 0 then [""]
    else if s[0] == sep then [""] + Split(s[1..], sep)
    else
      var rest := Split(s[1..], sep);
      [[s[0]] + rest[0]] + rest[1..]
  }

  /** Python's `sep.join(parts)`. */
  function JoinWith(parts: seq<string>, sep: char): string
  {
    if |parts| == 0 then ""
    else if |parts| == 1 then parts[0]
    else parts[0] + [sep] + JoinWith(parts[1..], sep)
  }

  /** Joining the pieces of a split gives back the string. */
  lemma {:induction false} JoinSplit(s: string, sep: char)
    ensures JoinWith(Split(s, sep), sep) == s
  {
    if |s| == 0 {
    } else if s[0] == sep {
      JoinSplit(s[1..], sep);
      assert s == [sep] + s[1..];
    } else {
      JoinSplit(s[1..], sep);
      var rest := Split(s[1..], sep);
      if |rest| == 1 {
        assert s == [s[0]] + s[1..];
      } else {
        assert JoinWith(rest, sep) == rest[0] + [sep] + JoinWith(rest[1..], sep);
        assert Split(s, sep) == [[s[0]] + rest[0]] + rest[1..];
        assert s == [s[0]] + s[1..];
      }
    }
  }

  /** Splitting a join of separator-free pieces gives back the pieces. */
  lemma {:induction false} SplitJoin(parts: seq<string>, sep: char)
    requires |parts| >= 1
    requires forall i :: 0 <= i < |parts| ==> sep !in parts[i]
    ensures Split(JoinWith(parts, sep), sep) == parts
  {
    if |parts| == 1 {
      SplitPiece(parts[0], [], sep);
      assert parts[0] + [] == parts[0];
      assert parts == [parts[0]];
    } else {
      SplitJoin(parts[1..], sep);
      var more := [sep] + JoinWith(parts[1..], sep);
      SplitPiece(parts[0], more, sep);
      assert more[1..] == JoinWith(parts[1..], sep);
      assert JoinWith(parts, sep) == parts[0] + more;
      assert parts == [parts[0]] + parts[1..];
    }
  }

  /** Splitting `w` followed by `more` (no separator inside `w`). */
  lemma {:induction false} SplitPiece(w: string, more: string, sep: char)
    requires sep !in w
    ensures |more| == 0 ==> Split(w + more, sep) == [w]
    ensures |more| > 0 && more[0] == sep ==> Split(w + more, sep) == [w] + Split(more[1..], sep)
  {
    if |w| == 0 {
      assert w + more == more;
    } else {
      SplitPiece(w[1..], more, sep);
      assert (w + more)[1..] == w[1..] + more;
      assert [w[0]] + w[1..] == w;
    }
  }

  /** The components a string contributes to a path: pathlib drops empty
      pieces and `.` pieces when it parses or joins. */
  function Clean(pieces: seq<string>): (r: Path)
    ensures forall i :: 0 <= i < |r| ==> r[i] != "" && r[i] != "."
  {
    if |pieces| == 0 then []
    else if pieces[0] == "" || pieces[0] == "." then Clean(pieces[1..])
    else [pieces[0]] + Clean(pieces[1..])
  }

  lemma {:induction false} CleanAppend(a: seq<string>, b: seq<string>)
    ensures Clean(a + b) == Clean(a) + Clean(b)
  {
    if |a| == 0 {
      assert a + b == b;
    } else {
      var ab := a + b;
      assert ab[0] == a[0];
      assert ab[1..] == a[1..] + b;
      CleanAppend(a[1..], b);
      if a[0] == "" || a[0] == "." {
        assert Clean(ab) == Clean(a[1..] + b);
      } else {
        assert Clean(ab) == [a[0]] + Clean(a[1..] + b);
      }
    }
  }

  /** `Path(s)`: the components of a string. */
  function Parts(s: string): Path
  {
    Clean(Split(s, '/'))
  }

  /** `p / s` in pathlib for a relative string `s`: its components appended. */
  function Join(p: Path, s: string): Path
  {
    p + Parts(s)
  }

  /** pathlib reads a string that starts with `/` as an absolute path. */
  predicate Absolute(s: string)
  {
    |s| > 0 && s[0] == '/'
  }

  /** `p / s` in pathlib for any string: an absolute `s` discards `p`, and any
      other `s` is joined under `p`. */
  function Slash(p: Path, s: string): Path
  {
    if Absolute(s) then Parts(s) else Join(p, s)
  }

  /** A relative string stays under the path it is joined to, and adds exactly its
      own components. */
  lemma SlashRelative(p: Path, s: string)
    requires !Absolute(s)
    ensures IsPrefix(p, Slash(p, s)) && Slash(p, s)[|p|..] == Parts(s)
  {
  }

  /** An absolute string gives the same path whatever it is joined to. */
  lemma SlashAbsolute(p: Path, q: Path, s: string)
    requires Absolute(s)
    ensures Slash(p, s) == Slash(q, s) == Parts(s)
  {
  }

  /** An absolute request path leaves the base directory: `music / '/etc/x'` is
      `/etc/x`. */
  lemma SlashEscapes()
    ensures Slash(["music"], "/etc/x") == ["etc", "x"]
    ensures !IsPrefix(["music"], Slash(["music"], "/etc/x"))
  {
    assert "x"[0] == 'x' && "x"[1..] == "" && ['x'] + "" == "x";
    assert Split("x", '/') == ["x"];
    assert "/x"[1..] == "x" && Split("/x", '/') == ["", "x"];
    assert "c/x"[0] == 'c' && "c/x"[1..] == "/x" && ['c'] + "" == "c";
    assert Split("c/x", '/') == ["c", "x"];
    assert "tc/x"[0] == 't' && "tc/x"[1..] == "c/x" && ['t'] + "c" == "tc";
    assert Split("tc/x", '/') == ["tc", "x"];
    assert "etc/x"[0] == 'e' && "etc/x"[1..] == "tc/x" && ['e'] + "tc" == "etc";
    assert Split("etc/x", '/') == ["etc", "x"];
    assert "/etc/x"[1..] == "etc/x" && Split("/etc/x", '/') == ["", "etc", "x"];
    assert Clean(["", "etc", "x"]) == ["etc", "x"] by {
      assert ["", "etc", "x"][1..] == ["etc", "x"] && ["etc", "x"][1..] == ["x"] && ["x"][1..] == [];
    }
  }

  /** A single entry name contributes itself, except `.` which contributes nothing. */
  lemma EntryParts(n: string)
    requires n != "" && '/' !in n
    ensures Parts(n) == if n == "." then [] else [n]
  {
    SplitPiece(n, "", '/');
    assert n + "" == n;
    assert Split(n, '/') == [n];
    assert [n][1..] == [];
    assert Clean([n]) == if n == "." then Clean([]) else [n] + Clean([]);
  }

  /** The path reached by joining each piece in turn. */
  function JoinAll(p: Path, pieces: seq<string>): Path
    decreases |pieces|
  {
    if |pieces| == 0 then p else JoinAll(Join(p, pieces[0]), pieces[1..])
  }

  /** Joining one more piece at the end. */
  lemma {:induction false} JoinAllSnoc(p: Path, pieces: seq<string>, w: string)
    ensures JoinAll(p, pieces + [w]) == Join(JoinAll(p, pieces), w)
    decreases |pieces|
  {
    if |pieces| == 0 {
      assert pieces + [w] == [w];
      assert [w][1..] == [];
    } else {
      JoinAllSnoc(Join(p, pieces[0]), pieces[1..], w);
      assert (pieces + [w])[0] == pieces[0];
      assert (pieces + [w])[1..] == pieces[1..] + [w];
    }
  }

  /** Joining the pieces of `s.split('/')` one after the other is joining `s`. */
  lemma {:induction false} JoinAllSplit(p: Path, s: string)
    ensures JoinAll(p, Split(s, '/')) == Join(p, s)
  {
    var pieces := Split(s, '/');
    JoinAllClean(p, pieces);
  }

  lemma {:induction false} JoinAllClean(p: Path, pieces: seq<string>)
    requires forall i :: 0 <= i < |pieces| ==> '/' !in pieces[i]
    ensures JoinAll(p, pieces) == p + Clean(pieces)
    decreases |pieces|
  {
    if |pieces| > 0 {
      var w, rest := pieces[0], pieces[1..];
      PieceParts(w);
      JoinAllClean(Join(p, w), rest);
      CleanAppend([w], rest);
      calc {
        JoinAll(p, pieces);
        JoinAll(p + Clean([w]), rest);
        (p + Clean([w])) + Clean(rest);
        p + (Clean([w]) + Clean(rest));
        { assert pieces == [w] + rest; }
        p + Clean(pieces);
      }
    }
  }

  /** A piece without a separator contributes its own cleaned components. */
  lemma PieceParts(w: string)
    requires '/' !in w
    ensures Parts(w) == Clean([w])
  {
    SplitPiece(w, "", '/');
    assert w + "" == w;
  }

  /** `os.path.basename` of a path string: its last component. */
  function Basename(p: Path): string
  {
    if |p| == 0 then "" else p[|p| - 1]
  }

  predicate IsPrefix(p: Path, q: Path)
  {
    |p| <= |q| && q[..|p|] == p
  }

  /** A prefix one element longer. */
  lemma PrefixExtend<T>(s: seq<T>, i: nat)
    requires i < |s|
    ensures s[..i + 1] == s[..i] + [s[i]]
  {
  }
}
