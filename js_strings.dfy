/** The JavaScript string built-ins the game relies on: white-space trimming and String.prototype.split
    with a one-character separator. */
module JsStrings {

  /** The code points ECMAScript counts as WhiteSpace or LineTerminator: the characters that
      String.prototype.trim, Number() and parseInt skip. */
  predicate IsJsSpace(c: char) {
    var k := c as int;
    k == 0x09 || k == 0x0A || k == 0x0B || k == 0x0C || k == 0x0D || k == 0x20 || k == 0xA0
    || k == 0x1680 || (0x2000 <= k <= 0x200A) || k == 0x2028 || k == 0x2029 || k == 0x202F
    || k == 0x205F || k == 0x3000 || k == 0xFEFF
  }

  /** Drops the leading white space. */
  function TrimStart(s: string): (t: string)
    ensures |t| <= |s| && t == s[|s| - |t|..]
    ensures |t| > 0 ==> !IsJsSpace(t[0])
    ensures forall i :: 0 <= i < |s| - |t| ==> IsJsSpace(s[i])
  {
    if |s| > 0 && IsJsSpace(s[0]) then TrimStart(s[1..]) else s
  }

  /** Drops the trailing white space. */
  function TrimEnd(s: string): (t: string)
    ensures |t| <= |s| && t == s[..|t|]
    ensures |t| > 0 ==> !IsJsSpace(t[|t| - 1])
    ensures forall i :: |t| <= i < |s| ==> IsJsSpace(s[i])
  {
    if |s| > 0 && IsJsSpace(s[|s| - 1]) then TrimEnd(s[..|s| - 1]) else s
  }

  /** `t` is `s` without its first `k` characters and the ones after `t`, all of them white space. */
  predicate StripsSpaceAround(s: string, t: string, k: int) {
    && 0 <= k && k + |t| <= |s| && t == s[k..k + |t|]
    && (forall i :: 0 <= i < k ==> IsJsSpace(s[i]))
    && (forall i :: k + |t| <= i < |s| ==> IsJsSpace(s[i]))
  }

  /** String.prototype.trim: the input with its leading and trailing white space removed. */
  function Trim(s: string): (t: string)
    ensures StripsSpaceAround(s, t, |s| - |TrimStart(s)|)
    ensures |t| > 0 ==> !IsJsSpace(t[0]) && !IsJsSpace(t[|t| - 1])
    ensures |t| == 0 <==> forall i :: 0 <= i < |s| ==> IsJsSpace(s[i])
  {
    var u := TrimStart(s);
    var t := TrimEnd(u);
    TrimmedCore(s, u, t);
    t
  }

  /** The text left after dropping a white-space prefix `s[..|s| - |u|]` and then a white-space
      suffix of `u` has only white space around it in `s`. */
  lemma TrimmedCore(s: string, u: string, t: string)
    requires |u| <= |s| && u == s[|s| - |u|..]
    requires |u| > 0 ==> !IsJsSpace(u[0])
    requires forall i :: 0 <= i < |s| - |u| ==> IsJsSpace(s[i])
    requires |t| <= |u| && t == u[..|t|]
    requires |t| > 0 ==> !IsJsSpace(t[|t| - 1])
    requires forall i :: |t| <= i < |u| ==> IsJsSpace(u[i])
    ensures StripsSpaceAround(s, t, |s| - |u|)
    ensures |t| > 0 ==> !IsJsSpace(t[0]) && !IsJsSpace(t[|t| - 1])
    ensures |t| == 0 <==> forall i :: 0 <= i < |s| ==> IsJsSpace(s[i])
  {
    var k := |s| - |u|;
    forall i | k + |t| <= i < |s|
      ensures IsJsSpace(s[i])
    {
      assert s[i] == u[i - k];
    }
    if |t| > 0 {
      assert t[0] == u[0] && s[k] == u[0];
    }
  }

  /** Leading white space is skipped up to the first character that is not white space. */
  lemma {:induction false} TrimStartSkips(ws: string, s: string)
    requires forall i :: 0 <= i < |ws| ==> IsJsSpace(ws[i])
    requires |s| == 0 || !IsJsSpace(s[0])
    ensures TrimStart(ws + s) == s
    decreases |ws|
  {
    if |ws| > 0 {
      assert (ws + s)[1..] == ws[1..] + s;
      TrimStartSkips(ws[1..], s);
    } else {
      assert ws + s == s;
    }
  }

  /** Trailing white space is dropped back to the last character that is not white space. */
  lemma {:induction false} TrimEndSkips(s: string, ws: string)
    requires forall i :: 0 <= i < |ws| ==> IsJsSpace(ws[i])
    requires |s| == 0 || !IsJsSpace(s[|s| - 1])
    ensures TrimEnd(s + ws) == s
    decreases |ws|
  {
    if |ws| > 0 {
      var w := ws[..|ws| - 1];
      assert (s + ws)[..|s + ws| - 1] == s + w;
      TrimEndSkips(s, w);
    } else {
      assert s + ws == s;
    }
  }

  /** Trimming removes exactly the white space around a text with non-space ends. */
  lemma TrimAround(ws1: string, body: string, ws2: string)
    requires forall i :: 0 <= i < |ws1| ==> IsJsSpace(ws1[i])
    requires forall i :: 0 <= i < |ws2| ==> IsJsSpace(ws2[i])
    requires |body| > 0 && !IsJsSpace(body[0]) && !IsJsSpace(body[|body| - 1])
    ensures Trim(ws1 + body + ws2) == body
  {
    assert ws1 + body + ws2 == ws1 + (body + ws2);
    assert (body + ws2)[0] == body[0];
    TrimStartSkips(ws1, body + ws2);
    TrimEndSkips(body, ws2);
  }

  /** A string that starts and ends with something other than white space is its own trim. */
  lemma TrimUnchanged(s: string)
    requires |s| > 0 ==> !IsJsSpace(s[0]) && !IsJsSpace(s[|s| - 1])
    ensures Trim(s) == s
  {
  }

  /** `s.split(sep)` for a one-character separator: the pieces between the separators, in order,
      empty pieces included; the empty string splits into one empty piece. */
  function Split(s: string, sep: char): (fields: seq<string>)
    ensures |fields| >= 1
    decreases |s|
  {
    if |s| == 0 then [""]
    else
      var rest := Split(s[1..], sep);
      if s[0] == sep then [""] + rest else [[s[0]] + rest[0]] + rest[1..]
  }

  /** `fields.join(sep)`: the inverse partner of Split. */
  function Join(fields: seq<string>, sep: char): string
    decreases |fields|
  {
    if |fields| == 0 then ""
    else if |fields| == 1 then fields[0]
    else fields[0] + [sep] + Join(fields[1..], sep)
  }

  /** The number of occurrences of `c` in `s`. */
  function Count(s: string, c: char): nat {
    if |s| == 0 then 0 else (if s[0] == c then 1 else 0) + Count(s[1..], c)
  }

  /** Splitting yields one more piece than there are separators, and no piece holds a separator. */
  lemma {:induction false} SplitShape(s: string, sep: char)
    ensures |Split(s, sep)| == Count(s, sep) + 1
    ensures forall i :: 0 <= i < |Split(s, sep)| ==> sep !in Split(s, sep)[i]
    decreases |s|
  {
    if |s| > 0 {
      SplitShape(s[1..], sep);
    }
  }

  /** Joining the pieces with the separator gives back the string that was split. */
  lemma {:induction false} JoinSplit(s: string, sep: char)
    ensures Join(Split(s, sep), sep) == s
    decreases |s|
  {
    if |s| > 0 {
      var rest := Split(s[1..], sep);
      JoinSplit(s[1..], sep);
      if s[0] == sep {
        assert Split(s, sep) == [""] + rest;
        if |rest| == 1 {
          assert Join([""] + rest, sep) == "" + [sep] + rest[0];
        } else {
          assert ([""] + rest)[1..] == rest;
        }
      } else {
        var fields := [[s[0]] + rest[0]] + rest[1..];
        assert Split(s, sep) == fields;
        if |rest| == 1 {
          assert Join(rest, sep) == rest[0];
        } else {
          assert fields[1..] == rest[1..];
          assert Join(rest, sep) == rest[0] + [sep] + Join(rest[1..], sep);
        }
        assert s == [s[0]] + s[1..];
      }
    }
  }

  /** Splitting a string with no separator in front of another gives that string as the start of
      the first piece. */
  lemma {:induction false} SplitPrefix(f: string, tail: string, sep: char)
    requires sep !in f
    ensures Split(f + tail, sep) == [f + Split(tail, sep)[0]] + Split(tail, sep)[1..]
    decreases |f|
  {
    var t := Split(tail, sep);
    if |f| == 0 {
      assert f + tail == tail && f + t[0] == t[0];
      assert t == [t[0]] + t[1..];
    } else {
      var s := f + tail;
      assert s[0] == f[0] && s[1..] == f[1..] + tail;
      assert f[0] != sep by {
        assert f[0] in f;
      }
      var rest := Split(f[1..] + tail, sep);
      assert rest == [f[1..] + t[0]] + t[1..] by {
        SplitPrefix(f[1..], tail, sep);
      }
      assert Split(s, sep) == [[f[0]] + rest[0]] + rest[1..];
      assert [f[0]] + (f[1..] + t[0]) == f + t[0];
    }
  }

  /** Splitting pieces that were joined gives back the pieces, when no piece holds the separator. */
  lemma {:induction false} SplitJoin(fields: seq<string>, sep: char)
    requires |fields| >= 1
    requires forall i :: 0 <= i < |fields| ==> sep !in fields[i]
    ensures Split(Join(fields, sep), sep) == fields
    decreases |fields|
  {
    if |fields| == 1 {
      SplitPrefix(fields[0], "", sep);
      assert fields[0] + "" == fields[0];
    } else {
      var tail := [sep] + Join(fields[1..], sep);
      SplitJoin(fields[1..], sep);
      assert Split(tail, sep) == [""] + fields[1..];
      SplitPrefix(fields[0], tail, sep);
      assert fields[0] + [sep] + Join(fields[1..], sep) == fields[0] + tail;
      assert fields[0] + "" == fields[0];
      assert fields == [fields[0]] + fields[1..];
    }
  }
}
