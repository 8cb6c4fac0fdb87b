/**
 The stored cursor: the link of the most recent post already delivered, kept in the file
 last_post_url.txt. Reading it yields nothing when the file does not exist and otherwise the
 file's text with surrounding whitespace removed, as Python's `str.strip()` does; writing it
 overwrites the file with the link, unstripped.
 */
module CursorStore {
  import opened Wrappers

  /** Python's `str.isspace` for one character: the code points `str.strip()` removes. */
  predicate IsSpace(c: char) {
    var n := c as int;
    (0x09 <= n <= 0x0D) || (0x1C <= n <= 0x20) || n == 0x85 || n == 0xA0 || n == 0x1680
    || (0x2000 <= n <= 0x200A) || n == 0x2028 || n == 0x2029 || n == 0x202F || n == 0x205F
    || n == 0x3000
  }

  predicate AllSpace(s: string) {
    forall i :: 0 <= i < |s| ==> IsSpace(s[i])
  }

  /** Neither begins nor ends with whitespace: what a stripped text looks like. */
  predicate Bare(s: string) {
    s == [] || (!IsSpace(s[0]) && !IsSpace(s[|s| - 1]))
  }

  /** `s.lstrip()`: drops the leading whitespace and keeps the rest. */
  function TrimStart(s: string): (r: string)
    ensures |r| <= |s| && r == s[|s| - |r|..]
    ensures AllSpace(s[..|s| - |r|])
    ensures r == [] || !IsSpace(r[0])
  {
    if s != [] && IsSpace(s[0]) then TrimStart(s[1..]) else s
  }

  /** `s.rstrip()`: drops the trailing whitespace and keeps the rest. */
  function TrimEnd(s: string): (r: string)
    ensures |r| <= |s| && r == s[..|r|]
    ensures AllSpace(s[|r|..])
    ensures r == [] || !IsSpace(r[|r| - 1])
  {
    if s != [] && IsSpace(s[|s| - 1]) then TrimEnd(s[..|s| - 1]) else s
  }

  /** `s.strip()`: the text between the leading and the trailing whitespace. */
  function Strip(s: string): (r: string)
    ensures |r| <= |s| && Bare(r)
  {
    TrimEnd(TrimStart(s))
  }

  /** What stripping keeps is the text between a whitespace prefix and a whitespace suffix. */
  lemma StripSplits(s: string) returns (p: string, q: string)
    ensures s == p + Strip(s) + q
    ensures AllSpace(p) && AllSpace(q)
  {
    var t := TrimStart(s);
    var r := TrimEnd(t);
    p, q := s[..|s| - |t|], t[|r|..];
    SplitAt(s, |s| - |t|);
    SplitAt(t, |r|);
    Regroup(p, r, q);
  }

  lemma SplitAt(s: string, k: nat)
    requires k <= |s|
    ensures s == s[..k] + s[k..]
  {
  }

  lemma Regroup(p: string, r: string, q: string)
    ensures p + (r + q) == p + r + q
  {
  }

  /** lstrip removes exactly a whitespace prefix in front of a text that does not start with whitespace. */
  lemma {:induction false} TrimStartOfPadded(p: string, t: string)
    requires AllSpace(p) && (t == [] || !IsSpace(t[0]))
    ensures TrimStart(p + t) == t
  {
    if p == [] {
      assert p + t == t;
    } else {
      assert (p + t)[0] == p[0];
      assert (p + t)[1..] == p[1..] + t;
      TrimStartOfPadded(p[1..], t);
    }
  }

  /** rstrip removes exactly a whitespace suffix after a text that does not end with whitespace. */
  lemma {:induction false} TrimEndOfPadded(t: string, q: string)
    requires AllSpace(q) && (t == [] || !IsSpace(t[|t| - 1]))
    ensures TrimEnd(t + q) == t
  {
    if q == [] {
      assert t + q == t;
    } else {
      var n := |t + q|;
      assert (t + q)[n - 1] == q[|q| - 1];
      assert (t + q)[..n - 1] == t + q[..|q| - 1];
      TrimEndOfPadded(t, q[..|q| - 1]);
    }
  }

  /** Stripping removes exactly the whitespace padding around a bare text. */
  lemma StripOfPadded(p: string, r: string, q: string)
    requires AllSpace(p) && AllSpace(q) && Bare(r)
    ensures Strip(p + r + q) == r
  {
    if r == [] {
      assert p + r + q == (p + q) + [];
      assert AllSpace(p + q) by {
        forall i | 0 <= i < |p + q| ensures IsSpace((p + q)[i]) {
          if i < |p| { assert (p + q)[i] == p[i]; } else { assert (p + q)[i] == q[i - |p|]; }
        }
      }
      TrimStartOfPadded(p + q, []);
    } else {
      assert p + r + q == p + (r + q);
      assert (r + q)[0] == r[0];
      TrimStartOfPadded(p, r + q);
      TrimEndOfPadded(r, q);
    }
  }

  lemma SpaceStripsToEmpty(s: string)
    requires AllSpace(s)
    ensures Strip(s) == []
  {
    assert s + [] == s;
    TrimStartOfPadded(s, []);
  }

  /** Stripping twice is stripping once. */
  lemma StripIdempotent(s: string)
    ensures Strip(Strip(s)) == Strip(s)
  {
    BareIsStripped(Strip(s));
  }

  /** A text without surrounding whitespace is its own stripping. */
  lemma BareIsStripped(r: string)
    requires Bare(r)
    ensures Strip(r) == r
  {
    var none: string := [];
    assert none + r + none == r;
    StripOfPadded(none, r, none);
  }

  /** What reading the cursor file yields, given its text (None: the file does not exist). */
  function CursorOf(text: Option<string>): (cursor: Option<string>)
    ensures cursor.None? <==> text.None?
    ensures cursor.Some? ==> Bare(cursor.value)
  {
    match text
    case None => None
    case Some(t) => Some(Strip(t))
  }

  /** The file last_post_url.txt. */
  class CursorFile {
    /** The file's text; None when the file does not exist. */
    var text: Option<string>

    constructor (text: Option<string>)
      ensures this.text == text
    {
      this.text := text;
    }

    /** get_last_post_url */
    method Read() returns (cursor: Option<string>)
      ensures cursor == CursorOf(text)
    {
      if text.None? {
        return None;
      }
      cursor := Some(Strip(text.value));
    }

    /** save_last_post_url: creates or overwrites the file with the link. */
    method Save(url: string)
      modifies this
      ensures text == Some(url)
    {
      text := Some(url);
    }
  }

  /** A link saved and read back is the link stripped; a bare link comes back unchanged. */
  lemma {:induction false} ReadAfterSave(url: string)
    ensures CursorOf(Some(url)) == Some(Strip(url))
    ensures Bare(url) ==> CursorOf(Some(url)) == Some(url)
  {
    if Bare(url) {
      BareIsStripped(url);
    }
  }
}
