/** Prefix tests and splitting of strings. */
module StringUtils {

  /** Compares character by character. */
  method StartsWith(str: string, prefix: string) returns (r: bool)
    ensures r <==> prefix <= str
  {
    if |prefix| <= |str| {
      var i := 0;
      while i < |prefix|
        invariant i <= |prefix| && prefix[..i] == str[..i]
      {
        if str[i] != prefix[i] {
          return false;
        }
        i := i + 1;
      }
      r := true;
    } else {
      r := false;
    }
  }

  method EndsWith(str: string, ext: string) returns (r: bool)
    ensures r <==> exists k :: 0 <= k <= |str| && str[k..] == ext
  {
    r := |str| >= |ext| && ext == str[|str| - |ext|..];
  }

  /** `std::string::find`: the first occurrence at or after `pos`, else the length. */
  method Find(str: string, sep: char, pos: nat) returns (next: nat)
    requires pos <= |str|
    ensures pos <= next <= |str| && sep !in str[pos..next]
    ensures next < |str| ==> str[next] == sep
  {
    next := pos;
    while next < |str| && str[next] != sep
      invariant pos <= next <= |str| && sep !in str[pos..next]
    {
      next := next + 1;
    }
  }

  /** The pieces with the separator between them. */
  function Join(pieces: seq<string>, sep: char): string {
    if pieces == [] then "" else if |pieces| == 1 then pieces[0]
    else pieces[0] + [sep] + Join(pieces[1..], sep)
  }

  /** The pieces with the separator after each. */
  function Terminated(pieces: seq<string>, sep: char): string {
    if pieces == [] then "" else pieces[0] + [sep] + Terminated(pieces[1..], sep)
  }

  /** No piece contains the separator. */
  predicate Clean(pieces: seq<string>, sep: char) {
    forall i :: 0 <= i < |pieces| ==> sep !in pieces[i]
  }

  /** A final separator is not part of the last piece. */
  function Trimmed(str: string, sep: char): string {
    if str != "" && str[|str| - 1] == sep then str[..|str| - 1] else str
  }

  /** What `split` leaves in `pieces`: exactly the separator-free pieces whose join is the
      input less one final separator, with no empty piece at the end of an input that
      does not end in a separator. */
  ghost predicate IsSplit(str: string, sep: char, pieces: seq<string>) {
    && Clean(pieces, sep)
    && Join(pieces, sep) == Trimmed(str, sep)
    && (pieces == [] <==> str == "")
  }

  method Split(str: string, sep: char) returns (pieces: seq<string>)
    ensures IsSplit(str, sep, pieces)
  {
    pieces := [];
    if str == "" {
      return;
    }
    var pos: nat := 0;
    var next := Find(str, sep, pos);
    while next < |str|
      invariant pos <= next <= |str| && sep !in str[pos..next]
      invariant next < |str| ==> str[next] == sep
      invariant Clean(pieces, sep) && Terminated(pieces, sep) == str[..pos]
      invariant pos == 0 <==> pieces == []
      decreases |str| - next
    {
      TerminatedAppend(pieces, str[pos..next], sep);
      assert str[..next + 1] == str[..pos] + str[pos..next] + [sep];
      pieces := pieces + [str[pos..next]];
      pos := next + 1;
      next := Find(str, sep, pos);
    }
    assert str[pos..next] == str[pos..];
    LastPart(str, sep, pieces, pos);
    if str[pos..] != "" {
      pieces := pieces + [str[pos..]];
    }
  }

  /** What is left behind the last separator is the last piece, if there is any. */
  lemma LastPart(str: string, sep: char, pieces: seq<string>, pos: nat)
    requires str != "" && pos <= |str| && sep !in str[pos..] && (pos == 0 <==> pieces == [])
    requires Clean(pieces, sep) && Terminated(pieces, sep) == str[..pos]
    ensures IsSplit(str, sep, if str[pos..] == "" then pieces else pieces + [str[pos..]])
  {
    var rest := str[pos..];
    assert str == str[..pos] + rest;
    if rest == "" {
      JoinTerminated(pieces, sep);
    } else {
      assert rest[|rest| - 1] == str[|str| - 1];
      JoinAppend(pieces, rest, sep);
    }
  }

  lemma {:induction false} TerminatedAppend(pieces: seq<string>, last: string, sep: char)
    ensures Terminated(pieces + [last], sep) == Terminated(pieces, sep) + last + [sep]
  {
    if pieces != [] {
      assert (pieces + [last])[1..] == pieces[1..] + [last];
      TerminatedAppend(pieces[1..], last, sep);
    }
  }

  lemma {:induction false} JoinAppend(pieces: seq<string>, last: string, sep: char)
    ensures Join(pieces + [last], sep) == Terminated(pieces, sep) + last
  {
    if pieces != [] {
      assert (pieces + [last])[1..] == pieces[1..] + [last];
      JoinAppend(pieces[1..], last, sep);
    }
  }

  lemma {:induction false} JoinTerminated(pieces: seq<string>, sep: char)
    ensures pieces != [] ==> Terminated(pieces, sep) == Join(pieces, sep) + [sep]
  {
    if |pieces| > 1 {
      JoinTerminated(pieces[1..], sep);
    }
  }

  // ----- Splitting is unique -----

  lemma FirstSeparator(a: string, u: string, sep: char)
    requires sep !in a
    ensures var s := a + [sep] + u;
            s[|a|] == sep && (forall i :: 0 <= i < |a| ==> s[i] != sep) && s[..|a|] == a && s[|a| + 1..] == u
  {
  }

  lemma FirstPiece(a: string, u: string, b: string, v: string, sep: char)
    requires sep !in a && sep !in b && a + [sep] + u == b + [sep] + v
    ensures a == b && u == v
  {
    FirstSeparator(a, u, sep);
    FirstSeparator(b, v, sep);
    assert |a| == |b|;
  }

  lemma {:induction false} JoinFree(pieces: seq<string>, sep: char)
    requires Clean(pieces, sep)
    ensures sep in Join(pieces, sep) <==> |pieces| > 1
  {
  }

  /** Two separator-free lists of pieces with the same join are the same list. */
  lemma {:induction false} JoinInjective(p: seq<string>, q: seq<string>, sep: char)
    requires Clean(p, sep) && Clean(q, sep) && p != [] && q != [] && Join(p, sep) == Join(q, sep)
    ensures p == q
    decreases |p|
  {
    JoinFree(p, sep);
    JoinFree(q, sep);
    if |p| > 1 {
      FirstPiece(p[0], Join(p[1..], sep), q[0], Join(q[1..], sep), sep);
      JoinInjective(p[1..], q[1..], sep);
      assert p == [p[0]] + p[1..] && q == [q[0]] + q[1..];
    }
  }

  /** The contract of `split` determines its result. */
  lemma SplitUnique(str: string, sep: char, p: seq<string>, q: seq<string>)
    requires IsSplit(str, sep, p) && IsSplit(str, sep, q)
    ensures p == q
  {
    if str != "" {
      JoinInjective(p, q, sep);
    }
  }

  /** Splitting a join gives the pieces back if and only if there are none or the last
      of them is not empty. */
  lemma SplitOfJoin(pieces: seq<string>, sep: char, result: seq<string>)
    requires Clean(pieces, sep) && IsSplit(Join(pieces, sep), sep, result)
    ensures result == pieces <==> pieces == [] || pieces[|pieces| - 1] != ""
  {
    if pieces != [] {
      LastPiece(pieces, sep);
      if pieces[|pieces| - 1] != "" {
        SplitUnique(Join(pieces, sep), sep, pieces, result);
      }
    }
  }

  lemma {:induction false} LastPiece(pieces: seq<string>, sep: char)
    requires Clean(pieces, sep) && pieces != []
    ensures var s, last := Join(pieces, sep), pieces[|pieces| - 1];
            if last != "" then s != "" && s[|s| - 1] != sep
            else if |pieces| == 1 then s == "" else s != "" && s[|s| - 1] == sep
  {
    if |pieces| > 1 {
      LastPiece(pieces[1..], sep);
    } else {
      assert pieces[0] == pieces[|pieces| - 1];
    }
  }
}
