/** Python's `str.split` on a one-character separator, and the image file
    name the app derives from a photo URL with it. */
module Text {

  /** `sep.join(parts)`: the inverse of `Split`. */
  function Join(parts: seq<string>, sep: char): string
    requires |parts| > 0
  {
    if |parts| == 1 then parts[0] else parts[0] + [sep] + Join(parts[1..], sep)
  }

  /** `s.split(sep)`: the maximal separator-free pieces of `s`, in order.
      Like Python it never returns an empty list: `"".split("/") == [""]`. */
  function Split(s: string, sep: char): (parts: seq<string>)
    ensures |parts| > 0
    ensures forall i :: 0 <= i < |parts| ==> sep !in parts[i]
    ensures Join(parts, sep) == s
  {
    if |s| == 0 then [""]
    else
      var rest := Split(s[1..], sep);
      if s[0] == sep then
        assert ([""] + rest)[1..] == rest;
        [""] + rest
      else
        var parts := [[s[0]] + rest[0]] + rest[1..];
        assert |rest| > 1 ==> parts[1..] == rest[1..];
        assert s == [s[0]] + s[1..];
        parts
  }

  /** Splitting a string that starts with a separator-free piece glues that
      piece onto the first part of the rest. */
  lemma {:induction false} SplitPrefix(p: string, t: string, sep: char)
    requires sep !in p
    ensures Split(p + t, sep) == [p + Split(t, sep)[0]] + Split(t, sep)[1..]
    decreases |p|
  {
    if |p| == 0 {
      assert p + t == t;
      assert p + Split(t, sep)[0] == Split(t, sep)[0];
      assert Split(t, sep) == [Split(t, sep)[0]] + Split(t, sep)[1..];
    } else {
      assert (p + t)[1..] == p[1..] + t;
      assert (p + t)[0] == p[0] != sep;
      SplitPrefix(p[1..], t, sep);
      assert [p[0]] + (p[1..] + Split(t, sep)[0]) == p + Split(t, sep)[0];
    }
  }

  /** Round trip in the other direction: joining separator-free pieces and
      splitting again gives the pieces back. */
  lemma {:induction false} SplitJoin(parts: seq<string>, sep: char)
    requires |parts| > 0
    requires forall i :: 0 <= i < |parts| ==> sep !in parts[i]
    ensures Split(Join(parts, sep), sep) == parts
    decreases |parts|
  {
    if |parts| == 1 {
      SplitPrefix(parts[0], "", sep);
      assert parts[0] + "" == parts[0];
    } else {
      var tail := Join(parts[1..], sep);
      SplitJoin(parts[1..], sep);
      assert Split([sep] + tail, sep) == [""] + parts[1..] by {
        assert ([sep] + tail)[1..] == tail;
      }
      assert parts[0] + [sep] + tail == parts[0] + ([sep] + tail);
      SplitPrefix(parts[0], [sep] + tail, sep);
      assert parts[0] + "" == parts[0];
      assert parts == [parts[0]] + parts[1..];
    }
  }

  /** The last piece of a join is a suffix of it, preceded by the separator
      whenever there is more than one piece. */
  lemma {:induction false} JoinLast(parts: seq<string>, sep: char)
    requires |parts| > 0
    ensures var j, l := Join(parts, sep), parts[|parts| - 1];
      |l| <= |j| && j[|j| - |l|..] == l && (|parts| > 1 ==> |l| < |j| && j[|j| - |l| - 1] == sep)
    decreases |parts|
  {
    if |parts| > 1 {
      JoinLast(parts[1..], sep);
      var j, l := Join(parts, sep), parts[|parts| - 1];
      var tail := Join(parts[1..], sep);
      assert j == (parts[0] + [sep]) + tail;
      assert l == parts[1..][|parts[1..]| - 1];
      assert j[|j| - |l|..] == tail[|tail| - |l|..];
      if |parts| == 2 {
        assert tail == l;
      }
    }
  }

  /** `photo_url.split('/')[-1]` (app.py:91): the part of the URL after its
      last slash, or the whole URL when it has none. */
  function ImageName(url: string): (name: string)
    ensures '/' !in name
    ensures |name| <= |url| && url[|url| - |name|..] == name
    ensures |name| < |url| ==> url[|url| - |name| - 1] == '/'
    ensures '/' !in url ==> name == url
  {
    var parts := Split(url, '/');
    JoinLast(parts, '/');
    parts[|parts| - 1]
  }

  /** The contract of `ImageName` pins its result down: any slash-free
      suffix that is the whole URL or follows a slash is that name. */
  lemma ImageNameUnique(url: string, name: string)
    requires '/' !in name
    requires |name| <= |url| && url[|url| - |name|..] == name
    requires |name| < |url| ==> url[|url| - |name| - 1] == '/'
    ensures name == ImageName(url)
  {
    var m := ImageName(url);
    assert forall i :: |url| - |m| <= i < |url| ==> url[i] != '/' by {
      forall i | |url| - |m| <= i < |url|
        ensures url[i] != '/'
      {
        assert url[i] == m[i - (|url| - |m|)];
      }
    }
    assert forall i :: |url| - |name| <= i < |url| ==> url[i] != '/' by {
      forall i | |url| - |name| <= i < |url|
        ensures url[i] != '/'
      {
        assert url[i] == name[i - (|url| - |name|)];
      }
    }
    assert |name| == |m|;
  }
}
