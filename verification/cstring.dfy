/**
 * C strings as the queue stores and copies them: a `char *` value is the
 * sequence of its characters before the terminating NUL, and a caller's
 * buffer is an array of characters that may hold NULs anywhere.
 */
module CStrings {

  /** The characters of a NUL-terminated C string, without the terminator. */
  type CString = s: string | '\0' !in s

  /**
   * What `strncpy(dst, src, n)` leaves in `dst[0..n)`: the characters of
   * `src` as far as they reach, then NUL padding up to `n`.
   */
  function StrNCpy(src: CString, n: nat): (r: string)
    ensures |r| == n
    decreases n
  {
    if n == 0 then []
    else if src == [] then ['\0'] + StrNCpy(src, n - 1)
    else [src[0]] + StrNCpy(src[1..], n - 1)
  }

  /**
   * Character by character, `strncpy(dst, src, n)` writes `src[i]` while
   * `src` lasts and NUL from there on.
   */
  lemma {:induction false} StrNCpyAt(src: CString, n: nat, i: nat)
    requires i < n
    ensures StrNCpy(src, n)[i] == if i < |src| then src[i] else '\0'
    decreases n
  {
    if i > 0 {
      if src == [] {
        StrNCpyAt(src, n - 1, i - 1);
      } else {
        StrNCpyAt(src[1..], n - 1, i - 1);
      }
    }
  }

  /** The C string a buffer holds: its characters up to the first NUL. */
  function CStr(buf: string): (r: CString)
    ensures r <= buf
    ensures |r| < |buf| ==> buf[|r|] == '\0'
  {
    if buf == [] || buf[0] == '\0' then [] else [buf[0]] + CStr(buf[1..])
  }

  /**
   * A buffer of `bufsize` characters filled by `strncpy(sp, v, bufsize - 1)`
   * and then terminated at `sp[bufsize - 1]` holds `v` silently truncated to
   * at most `bufsize - 1` characters.
   */
  lemma {:induction false} TruncatedCopy(v: CString, bufsize: nat)
    requires bufsize >= 1
    ensures CStr(StrNCpy(v, bufsize - 1) + ['\0']) == if |v| < bufsize then v else v[..bufsize - 1]
    decreases bufsize
  {
    var buf := StrNCpy(v, bufsize - 1) + ['\0'];
    if bufsize == 1 {
      assert buf == ['\0'];
    } else if v == [] {
      assert buf[0] == '\0';
    } else {
      var rest := StrNCpy(v[1..], bufsize - 2) + ['\0'];
      assert buf == [v[0]] + rest;
      assert buf[1..] == rest;
      assert CStr(buf) == [v[0]] + CStr(rest);
      TruncatedCopy(v[1..], bufsize - 1);
      if |v| < bufsize {
        assert v == [v[0]] + v[1..];
      } else {
        assert v[..bufsize - 1] == [v[0]] + v[1..][..bufsize - 2];
      }
    }
  }
}
