// The small part of Ruby's value model and core library that Hominid::Base relies on:
// values, truthiness, String#split with a one-character separator, Array#join,
// String#downcase and substring matching.

module Ruby {

  datatype Option<T> = None | Some(value: T)

  datatype Result<T, E> = Ok(value: T) | Err(error: E)

  /** A Ruby value as the library sees it. Hash keys are strings; an OpenStruct
      (what hash_to_object wraps a Hash into) is an Obj carrying its fields. */
  datatype Value =
    | Nil
    | Bool(b: bool)
    | Int(i: int)
    | Str(s: string)
    | Arr(elems: seq<Value>)
    | Hash(entries: map<string, Value>)
    | Obj(fields: map<string, Value>)

  /** Ruby truthiness: only nil and false are false. */
  predicate Truthy(v: Value)
  {
    !(v.Nil? || v == Bool(false))
  }

  /** `s =~ /sub/` for a pattern made of literal characters. */
  predicate Contains(s: string, sub: string)
  {
    exists i :: 0 <= i <= |s| && sub <= s[i..]
  }

  /** `parts.join(sep)`. */
  function Join(parts: seq<string>, sep: string): string
  {
    if |parts| == 0 then ""
    else if |parts| == 1 then parts[0]
    else Join(parts[..|parts| - 1], sep) + sep + parts[|parts| - 1]
  }

  /** Every field of `s` between occurrences of `sep`, empty ones included. */
  function Fields(s: string, sep: char): (r: seq<string>)
    ensures |r| >= 1
    ensures forall i :: 0 <= i < |r| ==> sep !in r[i]
    ensures s != [] && s[|s| - 1] != sep ==> r[|r| - 1] != []
  {
    if |s| == 0 then [""]
    else if s[|s| - 1] == sep then Fields(s[..|s| - 1], sep) + [""]
    else
      var init := Fields(s[..|s| - 1], sep);
      init[..|init| - 1] + [init[|init| - 1] + [s[|s| - 1]]]
  }

  /** Joining one more part adds the separator and the part, unless it is the first. */
  lemma JoinAppend(parts: seq<string>, p: string, sep: string)
    ensures Join(parts + [p], sep) == if parts == [] then p else Join(parts, sep) + sep + p
  {
    var all := parts + [p];
    assert all[..|all| - 1] == parts;
  }

  /** Fields and Join are inverse: joining the fields with the separator gives back `s`. */
  lemma {:induction false} JoinFields(s: string, sep: char)
    ensures Join(Fields(s, sep), [sep]) == s
  {
    if |s| > 0 {
      var init, c := s[..|s| - 1], s[|s| - 1];
      assert s == init + [c];
      JoinFields(init, sep);
      if c == sep {
        JoinFieldsStepSeparator(init, sep);
      } else {
        JoinFieldsStepChar(init, c, sep);
      }
    }
  }

  lemma JoinFieldsStepSeparator(init: string, sep: char)
    requires Join(Fields(init, sep), [sep]) == init
    ensures Join(Fields(init + [sep], sep), [sep]) == init + [sep]
  {
    var fs := Fields(init, sep);
    assert (init + [sep])[..|init|] == init;
    assert Fields(init + [sep], sep) == fs + [""];
    JoinAppend(fs, "", [sep]);
  }

  lemma JoinFieldsStepChar(init: string, c: char, sep: char)
    requires c != sep
    requires Join(Fields(init, sep), [sep]) == init
    ensures Join(Fields(init + [c], sep), [sep]) == init + [c]
  {
    var fs := Fields(init, sep);
    var front, last := fs[..|fs| - 1], fs[|fs| - 1];
    assert fs == front + [last];
    assert (init + [c])[..|init|] == init;
    assert Fields(init + [c], sep) == front + [last + [c]];
    JoinExtendsLast(front, last, c, [sep]);
  }

  /** Adding a character to the last part adds it to the end of the joined text. */
  lemma JoinExtendsLast(front: seq<string>, last: string, c: char, sep: string)
    ensures Join(front + [last + [c]], sep) == Join(front + [last], sep) + [c]
  {
    JoinAppend(front, last, sep);
    JoinAppend(front, last + [c], sep);
    if front != [] {
      var j := Join(front, sep);
      assert j + sep + (last + [c]) == j + sep + last + [c];
    }
  }

  /** Removes the empty fields at the end, as Ruby's split does. */
  function DropTrailingEmpty(fs: seq<string>): (r: seq<string>)
    ensures r <= fs
    ensures r == [] || r[|r| - 1] != []
    ensures forall i :: |r| <= i < |fs| ==> fs[i] == []
  {
    if |fs| == 0 then []
    else if fs[|fs| - 1] == [] then DropTrailingEmpty(fs[..|fs| - 1])
    else fs
  }

  /** `s.split(sep)` for a separator of one character other than a space. */
  function Split(s: string, sep: char): (r: seq<string>)
    ensures r <= Fields(s, sep)
    ensures r == [] || r[|r| - 1] != []
    ensures forall i :: |r| <= i < |Fields(s, sep)| ==> Fields(s, sep)[i] == []
  {
    DropTrailingEmpty(Fields(s, sep))
  }

  /** Split keeps every field when `s` does not end with the separator. */
  lemma SplitKeepsFields(s: string, sep: char)
    requires s != [] && s[|s| - 1] != sep
    ensures Split(s, sep) == Fields(s, sep)
  {
  }

  function LowerChar(c: char): char
  {
    if 'A' <= c <= 'Z' then (c as int + 32) as char else c
  }

  /** `s.downcase`: ASCII letters only, as String#downcase before Ruby 2.4. */
  function Downcase(s: string): (r: string)
    ensures |r| == |s|
    ensures forall i :: 0 <= i < |s| ==> r[i] == LowerChar(s[i])
  {
    seq(|s|, i requires 0 <= i < |s| => LowerChar(s[i]))
  }

  predicate IsLowerCase(s: string)
  {
    forall i :: 0 <= i < |s| ==> !('A' <= s[i] <= 'Z')
  }

  /** A string is left unchanged by downcase exactly when it has no upper-case letter. */
  lemma DowncaseFixesLowerCase(s: string)
    ensures Downcase(s) == s <==> IsLowerCase(s)
  {
    if Downcase(s) == s {
      forall i | 0 <= i < |s| ensures !('A' <= s[i] <= 'Z') {
        assert Downcase(s)[i] == s[i];
      }
    }
  }

  /** Downcased text is lower-case, so downcasing twice changes nothing more. */
  lemma DowncaseIdempotent(s: string)
    ensures IsLowerCase(Downcase(s))
    ensures Downcase(Downcase(s)) == Downcase(s)
  {
  }
}
