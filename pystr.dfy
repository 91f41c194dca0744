/**
 * The two Python string operations the game relies on, `str.format` with a
 * single `{}` placeholder and `sep.join(words)`, and `s.split(c)`, which serves
 * only as the inverse of `Join` in the URL round-trip proof.
 */
module PyStr {

  /** True when `s` has no braces, so `str.format` copies it unchanged. */
  predicate BraceFree(s: string) {
    forall i :: 0 <= i < |s| ==> s[i] != '{' && s[i] != '}'
  }

  /**
   * `template.format(arg)` for a template whose only replacement field is one
   * `{}`: the first `{}` is replaced by `arg`, everything else is kept.
   */
  function Format(template: string, arg: string): (filled: string)
  {
    if |template| < 2 then template
    else if template[0] == '{' && template[1] == '}' then arg + template[2..]
    else [template[0]] + Format(template[1..], arg)
  }

  /** Filling a template's only replacement field keeps the text on both sides of it. */
  lemma {:induction false} FormatFillsPlaceholder(pre: string, post: string, arg: string)
    requires BraceFree(pre) && BraceFree(post)
    ensures Format(pre + "{}" + post, arg) == pre + arg + post
  {
    var template := pre + "{}" + post;
    if pre != [] {
      var rest := pre[1..];
      assert template[0] == pre[0] != '{';
      assert template[1..] == rest + "{}" + post;
      assert BraceFree(rest) by {
        forall i | 0 <= i < |rest| ensures rest[i] != '{' && rest[i] != '}' {
          assert rest[i] == pre[i + 1];
        }
      }
      FormatFillsPlaceholder(rest, post, arg);
      calc {
        Format(template, arg);
        [pre[0]] + Format(rest + "{}" + post, arg);
        [pre[0]] + (rest + arg + post);
        { assert [pre[0]] + rest == pre; }
        pre + arg + post;
      }
    } else {
      assert template == "{}" + post && template[2..] == post;
    }
  }

  /** `sep.join(words)`: the words with `sep` between neighbours; "" for no words. */
  function Join(words: seq<string>, sep: string): (joined: string)
  {
    if |words| == 0 then ""
    else if |words| == 1 then words[0]
    else words[0] + sep + Join(words[1..], sep)
  }

  /** `s.split(c)`: the maximal runs of `s` between occurrences of `c`; "" gives `[""]`. */
  function Split(s: string, c: char): (pieces: seq<string>)
    ensures |pieces| >= 1
    ensures forall k :: 0 <= k < |pieces| ==> c !in pieces[k]
  {
    if s == [] then [[]]
    else
      var rest := Split(s[1..], c);
      if s[0] == c then [[]] + rest
      else [[s[0]] + rest[0]] + rest[1..]
  }

  /** A separator-free prefix glues onto the first piece of what follows it. */
  lemma {:induction false} SplitFreePrefix(w: string, s: string, c: char)
    requires c !in w
    ensures Split(w + s, c) == [w + Split(s, c)[0]] + Split(s, c)[1..]
  {
    if w != [] {
      var pieces := Split(s, c);
      assert (w + s)[1..] == w[1..] + s;
      SplitFreePrefix(w[1..], s, c);
      var rest := Split(w[1..] + s, c);
      assert rest[0] == w[1..] + pieces[0] && rest[1..] == pieces[1..];
      assert [w[0]] + rest[0] == w + pieces[0];
    } else {
      var pieces := Split(s, c);
      assert w + s == s && w + pieces[0] == pieces[0];
      assert pieces == [pieces[0]] + pieces[1..];
    }
  }

  /** Splitting a joined list on its separator gives the list back when no word holds the separator. */
  lemma {:induction false} SplitJoin(words: seq<string>, c: char)
    requires |words| >= 1
    requires forall k :: 0 <= k < |words| ==> c !in words[k]
    ensures Split(Join(words, [c]), c) == words
  {
    SplitFreePrefix(words[0], [], c);
    assert words[0] + [] == words[0];
    if |words| > 1 {
      var tail := Join(words[1..], [c]);
      SplitJoin(words[1..], c);
      SplitFreePrefix(words[0], [c] + tail, c);
      assert words[0] + [c] + tail == words[0] + ([c] + tail);
      assert ([c] + tail)[1..] == tail;
      assert words == [words[0]] + words[1..];
    }
  }
}
