/**
 The string operations the demos call on keys and file paths: `str.split`,
 `str.title` (over ASCII letters), `str.replace`, and the final component of a
 POSIX path (`PurePosixPath.name`).
 */
module PyStr {

  // ---------------------------------------------------------------------------
  // str.split(sep) with a one-character separator, and its inverse sep.join
  // ---------------------------------------------------------------------------

  /** `s.split(sep)`: the pieces between separators; always at least one piece. */
  function Split(s: string, sep: char): (parts: seq<string>)
    ensures |parts| >= 1
  {
    if s == [] then [[]]
    else
      var rest := Split(s[1..], sep);
      if s[0] == sep then [[]] + rest
      else [[s[0]] + rest[0]] + rest[1..]
  }

  /** No piece of a split holds the separator. */
  lemma {:induction false} SplitPiecesFree(s: string, sep: char)
    ensures forall i :: 0 <= i < |Split(s, sep)| ==> sep !in Split(s, sep)[i]
  {
    if s != [] {
      SplitPiecesFree(s[1..], sep);
    }
  }

  /** `sep.join(parts)` */
  function Join(parts: seq<string>, sep: char): string
    requires |parts| >= 1
  {
    if |parts| == 1 then parts[0] else parts[0] + [sep] + Join(parts[1..], sep)
  }

  /** Joining the pieces of a split gives back the string. */
  lemma {:induction false} JoinSplit(s: string, sep: char)
    ensures Join(Split(s, sep), sep) == s
  {
    if s != [] {
      var rest := Split(s[1..], sep);
      JoinSplit(s[1..], sep);
      if s[0] == sep {
        assert Split(s, sep)[1..] == rest;
      } else if |rest| > 1 {
        var parts := Split(s, sep);
        assert parts[1..] == rest[1..];
        assert Join(rest, sep) == rest[0] + [sep] + Join(rest[1..], sep);
        calc {
          Join(parts, sep);
          ([s[0]] + rest[0]) + [sep] + Join(rest[1..], sep);
          [s[0]] + (rest[0] + [sep] + Join(rest[1..], sep));
          [s[0]] + s[1..];
        }
      }
    }
  }

  /** Splitting a join of separator-free pieces gives back the pieces. */
  lemma {:induction false} SplitJoin(parts: seq<string>, sep: char)
    requires |parts| >= 1
    requires forall i :: 0 <= i < |parts| ==> sep !in parts[i]
    ensures Split(Join(parts, sep), sep) == parts
  {
    if |parts| == 1 {
      NoSeparatorSplit(parts[0], sep);
    } else {
      SplitJoin(parts[1..], sep);
      SplitAround(parts[0], Join(parts[1..], sep), sep);
    }
  }

  /** A string without the separator splits into itself alone. */
  lemma {:induction false} NoSeparatorSplit(s: string, sep: char)
    requires sep !in s
    ensures Split(s, sep) == [s]
  {
    if s != [] {
      assert s[0] != sep && sep !in s[1..];
      NoSeparatorSplit(s[1..], sep);
      assert [s[0]] + s[1..] == s;
    }
  }

  /** Splitting `a + sep + b`, where `a` holds no separator, puts `a` in front of the pieces of `b`. */
  lemma {:induction false} SplitAround(a: string, b: string, sep: char)
    requires sep !in a
    ensures Split(a + [sep] + b, sep) == [a] + Split(b, sep)
  {
    if a == [] {
      assert a + [sep] + b == [sep] + b;
      assert ([sep] + b)[1..] == b;
    } else {
      SplitAround(a[1..], b, sep);
      assert (a + [sep] + b)[1..] == a[1..] + [sep] + b;
      assert [a[0]] + a[1..] == a;
    }
  }

  /**
   `s.split(sep)[0]`: the longest prefix of `s` without the separator; it is
   either all of `s` or stops just before the first separator.
   */
  lemma {:induction false} SplitHead(s: string, sep: char)
    ensures var head := Split(s, sep)[0];
      && head <= s
      && sep !in head
      && (|head| == |s| || s[|head|] == sep)
  {
    SplitPiecesFree(s, sep);
    if s != [] && s[0] != sep {
      SplitHead(s[1..], sep);
    }
  }

  // ---------------------------------------------------------------------------
  // str.title() over ASCII
  // ---------------------------------------------------------------------------

  predicate IsUpper(c: char) { 'A' <= c <= 'Z' }
  predicate IsLower(c: char) { 'a' <= c <= 'z' }
  predicate IsCased(c: char) { IsUpper(c) || IsLower(c) }

  function ToUpper(c: char): (u: char)
    ensures IsCased(c) ==> IsUpper(u)
    ensures !IsLower(c) ==> u == c
  {
    if IsLower(c) then (c as int - 'a' as int + 'A' as int) as char else c
  }

  function ToLower(c: char): (l: char)
    ensures IsCased(c) ==> IsLower(l)
    ensures !IsUpper(c) ==> l == c
  {
    if IsUpper(c) then (c as int - 'A' as int + 'a' as int) as char else c
  }

  /** The scan behind `str.title()`, given whether the character before `s` was cased. */
  function TitleFrom(s: string, prevCased: bool): (r: string)
    ensures |r| == |s|
  {
    if s == [] then []
    else
      var c := if prevCased then ToLower(s[0]) else ToUpper(s[0]);
      [c] + TitleFrom(s[1..], IsCased(s[0]))
  }

  /** `s.title()` */
  function Title(s: string): (r: string)
    ensures |r| == |s|
  {
    TitleFrom(s, false)
  }

  /**
   Position by position: a letter that starts a run of letters is upper-cased,
   a letter that follows a letter is lower-cased, anything else is kept.
   */
  lemma {:induction false} TitleAt(s: string, i: nat)
    requires i < |s|
    ensures Title(s)[i] ==
      if i > 0 && IsCased(s[i - 1]) then ToLower(s[i]) else ToUpper(s[i])
  {
    TitleFromAt(s, false, i);
  }

  lemma {:induction false} TitleFromAt(s: string, prevCased: bool, i: nat)
    requires i < |s|
    ensures TitleFrom(s, prevCased)[i] ==
      if (if i == 0 then prevCased else IsCased(s[i - 1])) then ToLower(s[i]) else ToUpper(s[i])
  {
    if i > 0 {
      TitleFromAt(s[1..], IsCased(s[0]), i - 1);
    }
  }

  /** Title-casing keeps every character's letter and its casedness. */
  lemma {:induction false} TitleKeepsLetters(s: string, i: nat)
    requires i < |s|
    ensures ToLower(Title(s)[i]) == ToLower(s[i])
    ensures IsCased(Title(s)[i]) == IsCased(s[i])
  {
    TitleAt(s, i);
  }

  /** A word of lower-case letters is title-cased by capitalising its first letter. */
  lemma TitleOfLowerWord(w: string)
    requires |w| > 0 && forall i :: 0 <= i < |w| ==> IsLower(w[i])
    ensures Title(w) == [ToUpper(w[0])] + w[1..]
  {
    forall i | 0 <= i < |w| ensures Title(w)[i] == ([ToUpper(w[0])] + w[1..])[i] {
      TitleAt(w, i);
    }
  }

  /** Title-casing a title-cased string changes nothing. */
  lemma {:induction false} TitleIdempotent(s: string)
    ensures Title(Title(s)) == Title(s)
  {
    TitleFromIdempotent(s, false);
  }

  lemma {:induction false} TitleFromIdempotent(s: string, prevCased: bool)
    ensures TitleFrom(TitleFrom(s, prevCased), prevCased) == TitleFrom(s, prevCased)
  {
    if s != [] {
      var t := TitleFrom(s, prevCased);
      assert IsCased(t[0]) == IsCased(s[0]);
      assert t[1..] == TitleFrom(s[1..], IsCased(s[0]));
      TitleFromIdempotent(s[1..], IsCased(s[0]));
    }
  }

  // ---------------------------------------------------------------------------
  // str.replace(pat, rep)
  // ---------------------------------------------------------------------------

  /** `pat` occurs in `s` starting at index `i`. */
  predicate OccursAt(s: string, pat: string, i: nat) {
    i + |pat| <= |s| && s[i..i + |pat|] == pat
  }

  predicate Contains(s: string, pat: string) {
    exists i :: 0 <= i <= |s| && OccursAt(s, pat, i)
  }

  /** `s.replace(pat, rep)`: every non-overlapping occurrence, scanning left to right. */
  function Replace(s: string, pat: string, rep: string): (r: string)
    requires |pat| > 0
    ensures |rep| <= |pat| ==> |r| <= |s|
  {
    if |s| < |pat| then s
    else if s[..|pat|] == pat then rep + Replace(s[|pat|..], pat, rep)
    else [s[0]] + Replace(s[1..], pat, rep)
  }

  /** With no occurrence, `replace` returns the string unchanged. */
  lemma {:induction false} ReplaceAbsent(s: string, pat: string, rep: string)
    requires |pat| > 0
    requires !Contains(s, pat)
    ensures Replace(s, pat, rep) == s
  {
    if |s| >= |pat| {
      assert !OccursAt(s, pat, 0);
      forall i | 0 <= i <= |s[1..]| ensures !OccursAt(s[1..], pat, i) {
        if i + |pat| <= |s| - 1 {
          assert s[1..][i..i + |pat|] == s[i + 1..i + 1 + |pat|];
          assert !OccursAt(s, pat, i + 1);
        }
      }
      ReplaceAbsent(s[1..], pat, rep);
    }
  }

  /** Replacing "jpeg" by "jpg" keeps the first character. */
  lemma {:induction false} ReplaceJpegHead(s: string)
    requires s != []
    ensures |Replace(s, "jpeg", "jpg")| > 0
    ensures Replace(s, "jpeg", "jpg")[0] == s[0]
  {
  }

  /** If the rewritten string starts with "peg", so did the original. */
  lemma {:induction false} ReplaceJpegPeg(t: string)
    requires |Replace(t, "jpeg", "jpg")| >= 3
    requires Replace(t, "jpeg", "jpg")[..3] == "peg"
    ensures |t| >= 3 && t[..3] == "peg"
  {
    var r := Replace(t, "jpeg", "jpg");
    assert r[0] == 'p' && r[1] == 'e' && r[2] == 'g' by {
      assert r[..3][0] == r[0] && r[..3][1] == r[1] && r[..3][2] == r[2];
    }
    if |t| >= 4 {
      ReplaceJpegHead(t);
      assert t[0] == 'p' && t[..4] != "jpeg";
      var t1 := t[1..];
      var r1 := Replace(t1, "jpeg", "jpg");
      assert r == [t[0]] + r1;
      assert r1[0] == 'e' && r1[1] == 'g';
      if |t1| >= 4 {
        ReplaceJpegHead(t1);
        assert t1[0] == 'e' && t1[..4] != "jpeg";
        var t2 := t1[1..];
        var r2 := Replace(t2, "jpeg", "jpg");
        assert r1 == [t1[0]] + r2;
        ReplaceJpegHead(t2);
        assert t2[0] == r2[0] == 'g';
        assert t[1] == t1[0] && t[2] == t2[0];
      } else {
        assert r1 == t1;
        assert t[1] == t1[0] && t[2] == t1[1];
      }
    } else {
      assert r == t;
    }
  }

  /** After replacing "jpeg" by "jpg", no "jpeg" is left. */
  lemma {:induction false} ReplaceJpegComplete(s: string)
    ensures !Contains(Replace(s, "jpeg", "jpg"), "jpeg")
  {
    var r := Replace(s, "jpeg", "jpg");
    if |s| >= 4 {
      if s[..4] == "jpeg" {
        var rest := Replace(s[4..], "jpeg", "jpg");
        ReplaceJpegComplete(s[4..]);
        assert r == "jpg" + rest;
        forall i | 0 <= i <= |r| ensures !OccursAt(r, "jpeg", i) {
          if i >= 3 && i + 4 <= |r| {
            assert r[i..i + 4] == rest[i - 3..i + 1];
            assert !OccursAt(rest, "jpeg", i - 3);
          } else if i < 3 && i + 4 <= |r| {
            assert r[2] == 'g';
            assert r[i..i + 4][2 - i] == r[2];
            assert "jpeg"[2 - i] != 'g';
          }
        }
      } else {
        var rest := Replace(s[1..], "jpeg", "jpg");
        ReplaceJpegComplete(s[1..]);
        assert r == [s[0]] + rest;
        forall i | 0 <= i <= |r| ensures !OccursAt(r, "jpeg", i) {
          if i >= 1 && i + 4 <= |r| {
            assert r[i..i + 4] == rest[i - 1..i + 3];
            assert !OccursAt(rest, "jpeg", i - 1);
          } else if i == 0 && i + 4 <= |r| && r[..4] == "jpeg" {
            assert r[..4][1] == r[1] && r[..4][2] == r[2] && r[..4][3] == r[3];
            assert rest[0] == 'p' && rest[1] == 'e' && rest[2] == 'g';
            assert rest[..3] == "peg";
            ReplaceJpegPeg(s[1..]);
            assert false;
          }
        }
      }
    } else {
      assert r == s;
    }
  }

  /** Replacing "jpeg" by "jpg" introduces no "/". */
  lemma {:induction false} ReplaceJpegNoSlash(s: string)
    requires '/' !in s
    ensures '/' !in Replace(s, "jpeg", "jpg")
  {
    if |s| >= 4 {
      if s[..4] == "jpeg" {
        ReplaceJpegNoSlash(s[4..]);
      } else {
        ReplaceJpegNoSlash(s[1..]);
      }
    }
  }

  /** A string of two or more characters stays at least two long. */
  lemma ReplaceJpegLength(s: string)
    requires |s| >= 2
    ensures |Replace(s, "jpeg", "jpg")| >= 2
  {
    if |s| >= 4 && s[..4] != "jpeg" {
      ReplaceJpegHead(s[1..]);
    }
  }

  /** A trailing "jpeg" after text without a "j" becomes "jpg". */
  lemma {:induction false} ReplaceJpegSuffix(p: string)
    requires 'j' !in p
    ensures Replace(p + "jpeg", "jpeg", "jpg") == p + "jpg"
  {
    if p == [] {
      assert p + "jpeg" == "jpeg";
      assert "jpeg"[4..] == [];
    } else {
      var s := p + "jpeg";
      assert s[0] == p[0] != 'j';
      assert s[..4] != "jpeg";
      assert s[1..] == p[1..] + "jpeg";
      ReplaceJpegSuffix(p[1..]);
      assert p + "jpg" == [p[0]] + (p[1..] + "jpg");
    }
  }

  /** Rewriting "jpeg" to "jpg" twice is the same as once. */
  lemma ReplaceJpegIdempotent(s: string)
    ensures Replace(Replace(s, "jpeg", "jpg"), "jpeg", "jpg") == Replace(s, "jpeg", "jpg")
  {
    ReplaceJpegComplete(s);
    ReplaceAbsent(Replace(s, "jpeg", "jpg"), "jpeg", "jpg");
  }

  // ---------------------------------------------------------------------------
  // PurePosixPath(p).name
  // ---------------------------------------------------------------------------

  /** A path component that pathlib keeps: neither empty nor ".". */
  predicate IsComponent(part: string) {
    part != "" && part != "."
  }

  /** The last kept component among `parts`, or "" if there is none. */
  function LastComponent(parts: seq<string>): (name: string)
    ensures name == "" || (name in parts && IsComponent(name))
  {
    if parts == [] then ""
    else if IsComponent(parts[|parts| - 1]) then parts[|parts| - 1]
    else LastComponent(parts[..|parts| - 1])
  }

  /** `PurePosixPath(p).name`: the final component, ignoring empty and "." components. */
  function Name(path: string): (name: string)
    ensures '/' !in name
    ensures name != "."
  {
    SplitPiecesFree(path, '/');
    LastComponent(Split(path, '/'))
  }

  /** The name of `dir/name` is `name`, whatever the directory. */
  lemma NameOfJoin(dir: string, name: string)
    requires '/' !in name && IsComponent(name)
    ensures Name(dir + "/" + name) == name
  {
    var parts := Split(dir, '/');
    JoinSplit(dir, '/');
    SplitPiecesFree(dir, '/');
    SplitJoin(parts + [name], '/');
    JoinAppend(parts, name, '/');
  }

  lemma {:induction false} JoinAppend(parts: seq<string>, last: string, sep: char)
    requires |parts| >= 1
    ensures Join(parts + [last], sep) == Join(parts, sep) + [sep] + last
  {
    if |parts| > 1 {
      assert (parts + [last])[1..] == parts[1..] + [last];
      JoinAppend(parts[1..], last, sep);
    }
  }
}
