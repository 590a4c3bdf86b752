/** File names and paths: the legality check for one name and the way a
    path is cut into names at '/' characters. */
module Names {
  import opened Layout
  import opened Codec

  /** A character allowed in a file name: a digit, a letter, '.', '-', '_'
      or '/'. */
  predicate LegalChar(c: char)
  {
    || ('0' <= c <= '9')
    || c == '/'
    || ('a' <= c <= 'z')
    || ('A' <= c <= 'Z')
    || c == '.' || c == '-' || c == '_'
  }

  /** A legal file name: between 1 and MAX_NAME - 1 characters, all legal. */
  predicate LegalName(name: string)
  {
    0 < |name| <= MAX_NAME - 1 && forall i :: 0 <= i < |name| ==> LegalChar(name[i])
  }

  /** illegal_filename (HW4/LibFS.c:209-225): 1 for an empty or too long
      name or one holding an illegal character, 0 for a legal name. */
  method IllegalFilename(name: string) returns (r: int)
    ensures r == 0 || r == 1
    ensures r == 0 <==> LegalName(name)
  {
    if |name| > MAX_NAME - 1 || |name| == 0 {
      return 1;
    }
    var i := 0;
    while i < |name|
      invariant 0 <= i <= |name|
      invariant forall k :: 0 <= k < i ==> LegalChar(name[k])
    {
      var c := name[i];
      if !(('0' <= c <= '9') || c == '/' || ('a' <= c <= 'z') || ('A' <= c <= 'Z')
           || c == '.' || c == '-' || c == '_') {
        return 1;
      }
      i := i + 1;
    }
    return 0;
  }

  /** A legal name is a C string that fits a directory entry's name field
      with its terminating NUL, so a copy stored there compares equal to
      the name and to no other name. */
  lemma LegalNameFitsEntry(name: string, other: string)
    requires LegalName(name) && LegalName(other)
    ensures IsCString(name) && |name| < MAX_NAME
    ensures NameMatches(StrNCpy(name, MAX_NAME), other) <==> other == name
  {
    NameMatchesCopy(name, other);
  }

  /** The pieces `strsep(&s, "/")` returns one after the other: the text
      between consecutive '/' characters, including empty pieces. */
  function Split(s: string): (r: seq<string>)
    ensures |r| >= 1
  {
    if |s| == 0 then [""] else Push(s[0], Split(s[1..]))
  }

  /** The pieces of a text with `c` in front, from the pieces `t` of the
      text: a '/' starts a new empty piece, any other character joins the
      first piece. */
  function Push(c: char, t: seq<string>): (r: seq<string>)
    requires |t| >= 1
    ensures |r| >= 1
  {
    if c == '/' then [""] + t else [[c] + t[0]] + t[1..]
  }

  /** The pieces joined back with '/' between them. */
  function Join(ts: seq<string>): string
    requires |ts| >= 1
  {
    if |ts| == 1 then ts[0] else ts[0] + "/" + Join(ts[1..])
  }

  /** Splitting loses nothing: joining the pieces gives the string back. */
  lemma {:induction false} JoinSplit(s: string)
    ensures Join(Split(s)) == s
  {
    if |s| == 0 {
    } else if s[0] == '/' {
      JoinSplit(s[1..]);
      assert Split(s)[1..] == Split(s[1..]);
    } else {
      var t := Split(s[1..]);
      JoinSplit(s[1..]);
      if |t| == 1 {
      } else {
        assert Split(s)[1..] == t[1..];
        assert Join(t) == t[0] + "/" + Join(t[1..]);
      }
    }
  }

  /** No piece contains a '/'. */
  lemma {:induction false} SplitHasNoSlash(s: string)
    ensures forall k :: 0 <= k < |Split(s)| ==> '/' !in Split(s)[k]
  {
    if |s| > 0 {
      SplitHasNoSlash(s[1..]);
      if s[0] != '/' {
        var t := Split(s[1..]);
        assert '/' !in t[0];
        assert forall k :: 1 <= k < |Split(s)| ==> Split(s)[k] == t[k];
      }
    }
  }

  /** A '/' ends the pieces of the text before it and starts those of the
      text after it. */
  lemma {:induction false} SplitAtSlash(x: string, y: string)
    ensures Split(x + "/" + y) == Split(x) + Split(y)
  {
    if |x| == 0 {
      assert x + "/" + y == ['/'] + y;
      SplitCons('/', y);
    } else {
      var c, x' := x[0], x[1..];
      assert x + "/" + y == [c] + (x' + "/" + y);
      assert x == [c] + x';
      SplitAtSlash(x', y);
      ConsKeepsSuffix(c, x' + "/" + y, x', Split(y));
    }
  }

  /** Pieces that end with `u` still end with `u` when a character is put in
      front of the text. */
  lemma ConsKeepsSuffix(c: char, s: string, s': string, u: seq<string>)
    requires Split(s) == Split(s') + u
    ensures Split([c] + s) == Split([c] + s') + u
  {
    SplitCons(c, s);
    SplitCons(c, s');
    PushKeepsSuffix(c, Split(s'), u);
  }

  lemma PushKeepsSuffix(c: char, t: seq<string>, u: seq<string>)
    requires |t| >= 1
    ensures Push(c, t + u) == Push(c, t) + u
  {
    if c == '/' {
      assert [""] + (t + u) == ([""] + t) + u;
    } else {
      assert (t + u)[0] == t[0] && (t + u)[1..] == t[1..] + u;
      assert [[c] + t[0]] + (t[1..] + u) == ([[c] + t[0]] + t[1..]) + u;
    }
  }

  /** The pieces of a text one character longer at the front. */
  lemma SplitCons(c: char, s: string)
    ensures Split([c] + s) == Push(c, Split(s))
  {
    assert ([c] + s)[0] == c && ([c] + s)[1..] == s;
  }

  /** A text without '/' is a single piece. */
  lemma {:induction false} SplitNoSlash(t: string)
    requires '/' !in t
    ensures Split(t) == [t]
  {
    if |t| > 0 {
      assert '/' !in t[1..];
      SplitNoSlash(t[1..]);
      assert [t[0]] + t[1..] == t;
    }
  }

  /** The non-empty pieces, in order (the ones path resolution acts on). */
  function NonEmpty(ts: seq<string>): (r: seq<string>)
    ensures forall k :: 0 <= k < |r| ==> r[k] != ""
  {
    if |ts| == 0 then []
    else if ts[0] == "" then NonEmpty(ts[1..])
    else [ts[0]] + NonEmpty(ts[1..])
  }

  lemma {:induction false} NonEmptyAppend(a: seq<string>, b: seq<string>)
    ensures NonEmpty(a + b) == NonEmpty(a) + NonEmpty(b)
  {
    if |a| > 0 {
      assert (a + b)[0] == a[0];
      assert (a + b)[1..] == a[1..] + b;
      NonEmptyAppend(a[1..], b);
    } else {
      assert a + b == b;
    }
  }

  /** Doubling a '/' adds only an empty piece, so the non-empty pieces stay
      the same. */
  lemma RepeatedSlashSameNames(x: string, y: string)
    ensures NonEmpty(Split(x + "//" + y)) == NonEmpty(Split(x + "/" + y))
  {
    assert x + "//" + y == x + "/" + ("/" + y);
    SplitAtSlash(x, "/" + y);
    SplitAtSlash(x, y);
    SplitAtSlash("", y);
    assert "" + "/" + y == "/" + y;
    assert Split("") == [""];
    NonEmptyAppend(Split(x), Split("/" + y));
    NonEmptyAppend(Split(x), Split(y));
    NonEmptyAppend([""], Split(y));
  }

  /** The copy follow_path works on: the path without its leading '/',
      truncated to MAX_PATH - 1 characters (strncpy into a MAX_PATH buffer
      whose last byte is then set to NUL). */
  function Stored(path: string): (s: string)
    requires |path| >= 1
    ensures s <= path[1..]
    ensures |s| == if |path| - 1 < MAX_PATH - 1 then |path| - 1 else MAX_PATH - 1
  {
    if |path| <= MAX_PATH then path[1..] else path[1..MAX_PATH]
  }
}
