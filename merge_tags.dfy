// `Hominid::Base#clean_merge_tags` (lib/hominid/base.rb:92-101): every String value of
// the caller's Hash loses its vertical tabs and every nil value becomes '', in place;
// anything that is not a Hash gives a new, empty Hash.

module MergeTags {
  import opened Ruby

  /** "\v" in Ruby. */
  const VerticalTab: char := 11 as char

  /** `s.gsub("\v", '')`. */
  function WithoutVerticalTabs(s: string): (r: string)
    ensures VerticalTab !in r
    ensures VerticalTab !in s ==> r == s
    ensures forall c :: c != VerticalTab ==> multiset(r)[c] == multiset(s)[c]
  {
    if |s| == 0 then ""
    else
      assert s == [s[0]] + s[1..];
      (if s[0] == VerticalTab then "" else [s[0]]) + WithoutVerticalTabs(s[1..])
  }

  /** A single character is dropped if it is a vertical tab and kept otherwise. */
  lemma WithoutVerticalTabsChar(c: char)
    ensures WithoutVerticalTabs([c]) == if c == VerticalTab then [] else [c]
  {
    assert [c][1..] == [];
  }

  /** The removal works piece by piece: the text is cleaned in order, so together with
      WithoutVerticalTabsChar this fixes the result of `gsub` on every text. */
  lemma {:induction false} WithoutVerticalTabsAppend(a: string, b: string)
    ensures WithoutVerticalTabs(a + b) == WithoutVerticalTabs(a) + WithoutVerticalTabs(b)
  {
    if |a| > 0 {
      var head := if a[0] == VerticalTab then "" else [a[0]];
      assert (a + b)[0] == a[0] && (a + b)[1..] == a[1..] + b;
      WithoutVerticalTabsAppend(a[1..], b);
      assert WithoutVerticalTabs(a + b) == head + (WithoutVerticalTabs(a[1..]) + WithoutVerticalTabs(b));
      assert WithoutVerticalTabs(a) == head + WithoutVerticalTabs(a[1..]);
      assert head + (WithoutVerticalTabs(a[1..]) + WithoutVerticalTabs(b))
          == (head + WithoutVerticalTabs(a[1..])) + WithoutVerticalTabs(b);
    } else {
      assert a + b == b;
    }
  }

  /** What the loop body leaves in one entry. */
  function CleanValue(v: Value): Value
  {
    match v
    case Str(s) => Str(WithoutVerticalTabs(s))
    case Nil => Str("")
    case _ => v
  }

  /** The entries of the Hash once the loop has visited every key. */
  function CleanEntries(m: map<string, Value>): map<string, Value>
  {
    map k | k in m :: CleanValue(m[k])
  }

  /** An entry value that the cleaning would leave alone. */
  predicate IsClean(v: Value)
  {
    !v.Nil? && (v.Str? ==> VerticalTab !in v.s)
  }

  /** `clean_merge_tags(merge_tags)` on values: a Hash comes back cleaned, anything
      else as an empty Hash. */
  function Cleaned(tags: Value): (r: Value)
    ensures r.Hash?
    ensures !tags.Hash? ==> r.entries == map[]
    ensures tags.Hash? ==> r.entries.Keys == tags.entries.Keys
  {
    if tags.Hash? then Hash(CleanEntries(tags.entries)) else Hash(map[])
  }

  /** The keys stay; no String keeps a vertical tab and no value is nil; a String
      keeps its other characters; values of every other class are untouched. */
  lemma CleanedEntries(tags: Value)
    ensures Cleaned(tags).Hash?
    ensures !tags.Hash? ==> Cleaned(tags).entries == map[]
    ensures tags.Hash? ==> Cleaned(tags).entries.Keys == tags.entries.Keys
    ensures forall k :: k in Cleaned(tags).entries ==> IsClean(Cleaned(tags).entries[k])
    ensures tags.Hash? ==> forall k :: k in tags.entries && tags.entries[k].Nil? ==>
      Cleaned(tags).entries[k] == Str("")
    ensures tags.Hash? ==> forall k :: k in tags.entries && tags.entries[k].Str? ==>
      Cleaned(tags).entries[k] == Str(WithoutVerticalTabs(tags.entries[k].s))
    ensures tags.Hash? ==> forall k :: k in tags.entries && !tags.entries[k].Str? && !tags.entries[k].Nil? ==>
      Cleaned(tags).entries[k] == tags.entries[k]
  {
  }

  /** Cleaning leaves a Hash unchanged exactly when all of its values are already clean. */
  lemma CleanEntriesFixedPoints(m: map<string, Value>)
    ensures CleanEntries(m) == m <==> forall k :: k in m ==> IsClean(m[k])
  {
    if CleanEntries(m) == m {
      forall k | k in m ensures IsClean(m[k]) {
        assert CleanEntries(m)[k] == m[k];
      }
    }
  }

  /** Applying clean_merge_tags twice gives what applying it once gives. */
  lemma CleanedIdempotent(tags: Value)
    ensures Cleaned(Cleaned(tags)) == Cleaned(tags)
  {
    CleanedEntries(tags);
    CleanEntriesFixedPoints(Cleaned(tags).entries);
  }

  lemma CleanedExample()
    ensures Cleaned(Hash(map["x" := Str(['a', VerticalTab, 'b']), "y" := Nil]))
      == Hash(map["x" := Str("ab"), "y" := Str("")])
  {
    assert WithoutVerticalTabs(['a', VerticalTab, 'b']) == "ab" by {
      assert ['a', VerticalTab, 'b'][1..] == [VerticalTab, 'b'];
      assert [VerticalTab, 'b'][1..] == ['b'];
    }
  }

  /** The caller's Hash object, whose entries clean_merge_tags overwrites. */
  class TagHash {
    var entries: map<string, Value>

    constructor (entries: map<string, Value>)
      ensures this.entries == entries
    {
      this.entries := entries;
    }
  }

  /** The argument of clean_merge_tags: a Hash object, or some other value. */
  datatype Tags = HashTags(hash: TagHash) | OtherTags(value: Value)

  /** The method itself: the `each` loop rewrites the entries of the given Hash one key
      at a time and returns that same Hash; any other argument gives a new `{}`. */
  method CleanMergeTags(tags: Tags) returns (r: TagHash)
    requires tags.OtherTags? ==> !tags.value.Hash?
    modifies if tags.HashTags? then {tags.hash} else {}
    ensures tags.HashTags? ==> r == tags.hash && r.entries == CleanEntries(old(tags.hash.entries))
    ensures tags.OtherTags? ==> fresh(r) && r.entries == map[]
  {
    match tags
    case OtherTags(_) =>
      r := new TagHash(map[]);
    case HashTags(h) =>
      ghost var original := h.entries;
      var todo := h.entries.Keys;
      while todo != {}
        invariant todo <= original.Keys
        invariant h.entries.Keys == original.Keys
        invariant forall k :: k in original ==>
          h.entries[k] == if k in todo then original[k] else CleanValue(original[k])
        decreases todo
      {
        var key :| key in todo;
        var value := h.entries[key];
        if value.Str? {
          h.entries := h.entries[key := Str(WithoutVerticalTabs(value.s))];
        } else if value.Nil? {
          h.entries := h.entries[key := Str("")];
        }
        todo := todo - {key};
      }
      r := h;
  }
}
