/** The activity record shared by the client store and the list screen, and its date helpers. */
module Activities {

  /** An activity as the client holds it. `date` is the timestamp text sent by the server. */
  datatype Activity = Activity(
    id: string,
    title: string,
    description: string,
    category: string,
    date: string,
    city: string,
    venue: string)

  /** `s.split(c)[0]`: the text of `s` before the first occurrence of `c`. */
  function PrefixBefore(s: string, c: char): (r: string)
    ensures r <= s
    ensures c !in r
  {
    if s == [] then []
    else if s[0] == c then []
    else [s[0]] + PrefixBefore(s[1..], c)
  }

  /**
   * `s.split(c)[0]` is the longest prefix of `s` without `c`: it is a prefix, it holds no
   * `c`, and it stops either at the end of `s` or right before a `c`.
   */
  lemma {:induction false} PrefixBeforeSpec(s: string, c: char)
    ensures PrefixBefore(s, c) <= s
    ensures c !in PrefixBefore(s, c)
    ensures c in s ==> |PrefixBefore(s, c)| < |s| && s[|PrefixBefore(s, c)|] == c
    ensures c !in s ==> PrefixBefore(s, c) == s
  {
    if s != [] && s[0] != c {
      PrefixBeforeSpec(s[1..], c);
      assert s == [s[0]] + s[1..];
    }
  }

  /** `date.split('.')[0]`: the timestamp with its fractional seconds cut off. */
  function CutFraction(date: string): (r: string)
    ensures '.' !in r
    ensures r <= date
    ensures '.' in date ==> date[|r|] == '.'
    ensures '.' !in date ==> r == date
    ensures PrefixBefore(r, '.') == r
  {
    PrefixBeforeSpec(date, '.');
    PrefixBeforeSpec(PrefixBefore(date, '.'), '.');
    PrefixBefore(date, '.')
  }

  /** `date.split('T')[0]`: the calendar day of a timestamp, its text before the first 'T'. */
  function DatePart(date: string): (r: string)
    ensures r <= date
    ensures 'T' !in r
  {
    PrefixBefore(date, 'T')
  }

  /** The activity with its date normalised as the client does on ingestion; every other field is kept. */
  function Normalize(a: Activity): (r: Activity)
    ensures r.date == CutFraction(a.date)
    ensures '.' !in r.date
    ensures CutFraction(r.date) == r.date
    ensures r.(date := a.date) == a
  {
    a.(date := CutFraction(a.date))
  }

  /**
   * Cutting the fraction never changes the day of an ISO-8601 timestamp: when the
   * first 'T' comes before the first '.', both texts have the same prefix before 'T'.
   */
  lemma {:induction false} NormalizeKeepsDay(date: string)
    requires 'T' in date
    requires '.' in date ==> |DatePart(date)| < |CutFraction(date)|
    ensures DatePart(CutFraction(date)) == DatePart(date)
  {
    var d := DatePart(date);
    var c := CutFraction(date);
    PrefixBeforeSpec(date, 'T');
    assert d <= c;
    assert c[|d|] == 'T' by {
      assert date[|d|] == 'T';
    }
    PrefixOfPrefix(c, d, 'T');
  }

  /** If `p` is a prefix of `s` without `c` followed by `c`, it is `s`'s part before `c`. */
  lemma {:induction false} PrefixOfPrefix(s: string, p: string, c: char)
    requires p <= s && c !in p && |p| < |s| && s[|p|] == c
    ensures PrefixBefore(s, c) == p
  {
    if p != [] {
      PrefixOfPrefix(s[1..], p[1..], c);
    }
  }
}
