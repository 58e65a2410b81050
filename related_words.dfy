/**
 * The pure tail of the related-word service: what it does with the language model's
 * answer once the network call has returned (or failed).
 */
module RelatedWords {
  import opened Text

  /** The model's answer, after `JSON.parse`. */
  datatype Response =
    | EmptyText                      // `response.text` empty or absent
    | Parsed(words: seq<string>)     // the text parsed as a list of strings
    | Failure                        // the call threw, or parsing did not give a list of strings

  /** What the service answers whenever anything goes wrong. */
  const Fallback: seq<string> := ["Error", "Retry", "Wait"]

  /** The filter's test: a word survives unless it is the subject, ignoring case. */
  predicate Keep(subject: string, w: string)
  {
    ToLower(w) != ToLower(subject)
  }

  /** `words.filter(w => w.toLowerCase() !== subject.toLowerCase())`. */
  function Filter(subject: string, s: seq<string>): (r: seq<string>)
    ensures |r| <= |s|
    ensures forall x :: x in r <==> x in s && Keep(subject, x)
  {
    if s == [] then []
    else
      var init, last := s[..|s| - 1], s[|s| - 1];
      assert s == init + [last];
      Filter(subject, init) + if Keep(subject, last) then [last] else []
  }

  /** No value occurs twice. */
  predicate NoDup(s: seq<string>)
  {
    forall i, j :: 0 <= i < j < |s| ==> s[i] != s[j]
  }

  /**
   * `Array.from(new Set(s))`: the elements of `s` added one by one to an
   * insertion-ordered set under exact equality, then listed in insertion order.
   */
  function Dedup(s: seq<string>): (r: seq<string>)
    ensures |r| <= |s|
    ensures NoDup(r)
    ensures forall x :: x in r <==> x in s
  {
    if s == [] then []
    else
      var init, last := s[..|s| - 1], s[|s| - 1];
      assert s == init + [last];
      var d := Dedup(init);
      if last in d then d else d + [last]
  }

  /** `fetchRelatedWords` from the point where the model has answered. */
  function FetchRelatedWords(subject: string, response: Response): (r: seq<string>)
    ensures response == EmptyText ==> r == []
    ensures response == Failure ==> r == Fallback
    ensures response.Parsed? ==>
      |r| <= |response.words| && NoDup(r) &&
      forall x :: x in r <==> x in response.words && Keep(subject, x)
  {
    match response
    case EmptyText => []
    case Parsed(words) => Dedup(Filter(subject, words))
    case Failure => Fallback
  }

  /** The position of the first occurrence of `x` in `s`. */
  function FirstIndex(s: seq<string>, x: string): (i: nat)
    requires x in s
    ensures i < |s| && s[i] == x
    ensures forall k :: 0 <= k < i ==> s[k] != x
  {
    if s[0] == x then 0 else 1 + FirstIndex(s[1..], x)
  }

  /**
   * The reference description of "keeps the order of first occurrence": every element of
   * `r` occurs in `s`, and `r` lists them by strictly increasing position of their first
   * occurrence in `s`. The map k |-> FirstIndex(s, r[k]) is then an order-preserving
   * embedding of `r` into `s`, so `r` is a subsequence of `s` without repetitions.
   */
  ghost predicate InFirstOccurrenceOrder(r: seq<string>, s: seq<string>)
  {
    (forall k :: 0 <= k < |r| ==> r[k] in s) &&
    forall i, j :: 0 <= i < j < |r| ==> FirstIndex(s, r[i]) < FirstIndex(s, r[j])
  }

  lemma FirstIndexIs(s: seq<string>, x: string, i: nat)
    requires i < |s| && s[i] == x
    requires forall k :: 0 <= k < i ==> s[k] != x
    ensures FirstIndex(s, x) == i
  {
    var j := FirstIndex(s, x);
    assert !(j < i) && !(i < j);
  }

  /** Appending an element does not move the first occurrences of what was there. */
  lemma FirstIndexAppend(s: seq<string>, a: string, x: string)
    requires x in s
    ensures x in s + [a] && FirstIndex(s + [a], x) == FirstIndex(s, x)
  {
    var i := FirstIndex(s, x);
    FirstIndexIs(s + [a], x, i);
  }

  /** Set-based de-duplication keeps the order of first occurrence. */
  lemma {:induction false} DedupInFirstOccurrenceOrder(s: seq<string>)
    ensures InFirstOccurrenceOrder(Dedup(s), s)
  {
    if s != [] {
      var init, last := s[..|s| - 1], s[|s| - 1];
      assert s == init + [last];
      var d := Dedup(init);
      DedupInFirstOccurrenceOrder(init);
      forall x | x in init ensures FirstIndex(s, x) == FirstIndex(init, x) {
        FirstIndexAppend(init, last, x);
      }
      if last !in d {
        assert last !in init;
        FirstIndexIs(s, last, |init|);
        var r := d + [last];
        forall i, j | 0 <= i < j < |r| ensures FirstIndex(s, r[i]) < FirstIndex(s, r[j]) {
          if j < |d| {
            assert r[i] == d[i] && r[j] == d[j];
          } else {
            assert r[i] == d[i] && r[i] in init;
          }
        }
      }
    }
  }

  /** Filtering keeps the relative order of the first occurrences of surviving words. */
  lemma {:induction false} FilterKeepsOrder(subject: string, s: seq<string>, x: string, y: string)
    requires x in Filter(subject, s) && y in Filter(subject, s)
    requires FirstIndex(Filter(subject, s), x) < FirstIndex(Filter(subject, s), y)
    ensures FirstIndex(s, x) < FirstIndex(s, y)
  {
    var init, last := s[..|s| - 1], s[|s| - 1];
    assert s == init + [last];
    var f := Filter(subject, init);
    if !Keep(subject, last) {
      assert Filter(subject, s) == f;
      FilterKeepsOrder(subject, init, x, y);
      FirstIndexAppend(init, last, x);
      FirstIndexAppend(init, last, y);
    } else {
      assert Filter(subject, s) == f + [last];
      if y in f {
        assert x in f;
        FirstIndexAppend(f, last, x);
        FirstIndexAppend(f, last, y);
        FilterKeepsOrder(subject, init, x, y);
        FirstIndexAppend(init, last, x);
        FirstIndexAppend(init, last, y);
      } else {
        assert y == last && last !in init;
        FirstIndexAppend(init, last, x);
        FirstIndexIs(s, y, |init|);
      }
    }
  }

  /** Two repetition-free listings of the same values in first-occurrence order are equal. */
  lemma {:induction false} FirstOccurrenceOrderUnique(r1: seq<string>, r2: seq<string>, s: seq<string>)
    requires InFirstOccurrenceOrder(r1, s) && InFirstOccurrenceOrder(r2, s)
    requires forall x :: x in r1 <==> x in r2
    ensures r1 == r2
  {
    if r1 == [] {
      assert forall i :: 0 <= i < |r2| ==> r2[i] in r2;
    } else {
      assert r1[0] in r2 && r2 != [] && r2[0] in r1;
      assert r1[0] == r2[0];
      forall x ensures x in r1[1..] <==> x in r2[1..] {
        TailMembers(r1, s, x);
        TailMembers(r2, s, x);
      }
      FirstOccurrenceOrderUnique(r1[1..], r2[1..], s);
      assert r1 == [r1[0]] + r1[1..] && r2 == [r2[0]] + r2[1..];
    }
  }

  lemma TailMembers(r: seq<string>, s: seq<string>, x: string)
    requires InFirstOccurrenceOrder(r, s) && r != []
    ensures InFirstOccurrenceOrder(r[1..], s)
    ensures x in r[1..] <==> x in r && x != r[0]
  {
    if x in r[1..] {
      var m :| 1 <= m < |r| && r[m] == x;
      assert FirstIndex(s, r[0]) < FirstIndex(s, r[m]);
    }
    if x in r && x != r[0] {
      var m :| 0 <= m < |r| && r[m] == x;
      assert r[1..][m - 1] == x;
    }
    forall i, j | 0 <= i < j < |r| - 1 ensures FirstIndex(s, r[1..][i]) < FirstIndex(s, r[1..][j]) {
      assert r[1..][i] == r[i + 1] && r[1..][j] == r[j + 1];
    }
  }

  /**
   * The service's answer to a parsed list, characterised independently of how it is
   * computed: `r` is the answer exactly when it keeps the first-occurrence order of
   * `words` and holds exactly the words that are not the subject, ignoring case.
   */
  lemma FetchMatchesReference(subject: string, words: seq<string>, r: seq<string>)
    ensures r == FetchRelatedWords(subject, Parsed(words)) <==>
      InFirstOccurrenceOrder(r, words) && forall x :: x in r <==> x in words && Keep(subject, x)
  {
    var f := Filter(subject, words);
    var d := Dedup(f);
    DedupInFirstOccurrenceOrder(f);
    forall i, j | 0 <= i < j < |d| ensures FirstIndex(words, d[i]) < FirstIndex(words, d[j]) {
      FilterKeepsOrder(subject, words, d[i], d[j]);
    }
    assert InFirstOccurrenceOrder(d, words);
    if InFirstOccurrenceOrder(r, words) && forall x :: x in r <==> x in words && Keep(subject, x) {
      FirstOccurrenceOrderUnique(r, d, words);
    }
  }

  /** No surviving word is the subject, whatever the case of either. */
  lemma SubjectRemoved(subject: string, words: seq<string>, k: nat)
    requires k < |FetchRelatedWords(subject, Parsed(words))|
    ensures ToLower(FetchRelatedWords(subject, Parsed(words))[k]) != ToLower(subject)
  {
    var r := FetchRelatedWords(subject, Parsed(words));
    assert r[k] in r;
  }

  /** Running the filter and the de-duplication again over their own output changes nothing. */
  lemma FetchIdempotent(subject: string, words: seq<string>)
    ensures var r := FetchRelatedWords(subject, Parsed(words));
      FetchRelatedWords(subject, Parsed(r)) == r
  {
    var r := FetchRelatedWords(subject, Parsed(words));
    forall i, j | 0 <= i < j < |r| ensures FirstIndex(r, r[i]) < FirstIndex(r, r[j]) {
      FirstIndexIs(r, r[i], i);
      FirstIndexIs(r, r[j], j);
    }
    FetchMatchesReference(subject, r, r);
  }

  /** The subject is dropped whatever the case it comes back in. */
  lemma SubjectInAnyCaseDropped()
    ensures FetchRelatedWords("Cat", Parsed(["Cat", "cat", "Dog"])) == ["Dog"]
  {
    var w := ["Cat", "cat", "Dog"];
    assert ToLower("Cat") == "cat" && ToLower("Dog") == "dog";
    assert w[..2] == ["Cat", "cat"] && w[..2][..1] == ["Cat"] && ["Cat"][..0] == [];
    assert Filter("Cat", w) == ["Dog"];
    assert ["Dog"][..0] == [];
  }

  /** De-duplication is by exact equality: case variants of another word both survive. */
  lemma CaseVariantsSurvive()
    ensures FetchRelatedWords("Cat", Parsed(["Dog", "dog", "Dog"])) == ["Dog", "dog"]
  {
    CaseVariantsFiltered();
    CaseVariantsDeduplicated();
  }

  lemma CaseVariantsDeduplicated()
    ensures Dedup(["Dog", "dog", "Dog"]) == ["Dog", "dog"]
  {
    var w := ["Dog", "dog", "Dog"];
    assert w[..2] == ["Dog", "dog"] && w[..2][..1] == ["Dog"] && ["Dog"][..0] == [];
    assert Dedup(["Dog"]) == ["Dog"];
    assert Dedup(["Dog", "dog"]) == ["Dog", "dog"];
  }

  lemma CaseVariantsFiltered()
    ensures Filter("Cat", ["Dog", "dog", "Dog"]) == ["Dog", "dog", "Dog"]
  {
    var w := ["Dog", "dog", "Dog"];
    assert Keep("Cat", "Dog") && Keep("Cat", "dog") by {
      assert ToLower("Cat")[0] == 'c' && ToLower("Dog")[0] == 'd' && ToLower("dog")[0] == 'd';
    }
    assert w[..2] == ["Dog", "dog"] && w[..2][..1] == ["Dog"] && ["Dog"][..0] == [];
    assert Filter("Cat", ["Dog"]) == ["Dog"];
    assert Filter("Cat", ["Dog", "dog"]) == ["Dog", "dog"];
  }

  /** The fallback is not filtered against the subject. */
  lemma FallbackNotFiltered()
    ensures FetchRelatedWords("error", Failure) == ["Error", "Retry", "Wait"]
    ensures !Keep("error", FetchRelatedWords("error", Failure)[0])
  {
    assert ToLower("Error") == "error";
  }
}
