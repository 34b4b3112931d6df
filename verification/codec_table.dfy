/** The codec naming table written as data: an ordered list of rules, each a
    prefix or an exact string with its human-readable label. It is the
    reference the two `switch`-shaped codec functions are proved against. */
module CodecTable {
  import opened Results
  import opened Text

  datatype Rule =
    | PrefixRule(pattern: string, name: string)
    | ExactRule(pattern: string, name: string)

  /** The rules in the order the `switch` tries them. */
  const Rules: seq<Rule> := [
    PrefixRule("avc1", "H.264"),
    PrefixRule("hvc1", "H.265"),
    PrefixRule("hev1", "HEVC"),
    PrefixRule("av01", "AV1"),
    PrefixRule("vp09", "VP9"),
    ExactRule("mp4a.40.2", "AAC-LC"),
    ExactRule("mp4a.40.5", "HE-AAC (v1)"),
    ExactRule("mp4a.40.29", "HE-AAC v2"),
    ExactRule("ac-3", "Dolby AC-3"),
    ExactRule("ec-3", "Dolby E-AC-3 (Atmos)")
  ]

  predicate Matches(rule: Rule, c: string) {
    match rule
    case PrefixRule(p, _) => p <= c
    case ExactRule(p, _) => c == p
  }

  /** The label of the first rule of `rules` that matches `c`. */
  function Lookup(rules: seq<Rule>, c: string): (r: Option<string>)
    ensures r.None? <==> forall i :: 0 <= i < |rules| ==> !Matches(rules[i], c)
    ensures r.Some? ==> exists i :: 0 <= i < |rules| && Matches(rules[i], c) && r.value == rules[i].name
                                    && forall j :: 0 <= j < i ==> !Matches(rules[j], c)
  {
    if |rules| == 0 then None
    else if Matches(rules[0], c) then Some(rules[0].name)
    else
      var r := Lookup(rules[1..], c);
      assert forall i :: 1 <= i < |rules| ==> rules[1..][i - 1] == rules[i];
      r
  }

  /** The label for an already lower-cased codec string: the table's label,
      or the string itself when no rule matches. */
  function Label(c: string): string {
    match Lookup(Rules, c)
    case Some(l) => l
    case None => c
  }

  /** Every label of the table holds an upper-case letter. */
  lemma LabelsHaveUpperCase(i: int)
    requires 0 <= i < |Rules|
    ensures !IsLowerCase(Rules[i].name)
  {
    assert IsUpper(Rules[i].name[0]);
  }

  /** Two different rules share their first four pattern characters only
      when both are exact "mp4a.40." rules. */
  lemma SharedHeads(i: int, j: int)
    requires 0 <= i < j < |Rules|
    requires Rules[i].pattern[..4] == Rules[j].pattern[..4]
    ensures 5 <= i && j <= 7
  {
    var heads := ["avc1", "hvc1", "hev1", "av01", "vp09", "mp4a", "mp4a", "mp4a", "ac-3", "ec-3"];
    assert forall k :: 0 <= k < |Rules| ==> Rules[k].pattern[..4] == heads[k];
  }

  /** No string matches two different rules, so the order in which the
      table is tried never decides the label. */
  lemma RulesDisjoint(c: string, i: int, j: int)
    requires 0 <= i < j < |Rules|
    requires Matches(Rules[i], c)
    ensures !Matches(Rules[j], c)
  {
    var pi, pj := Rules[i].pattern, Rules[j].pattern;
    assert pi <= c;
    if pj <= c {
      assert pi[..4] == c[..4] == pj[..4];
      SharedHeads(i, j);
    }
  }

  /** A codec string matching rule `k` gets rule `k`'s label. */
  lemma LabelOfMatch(c: string, k: int)
    requires 0 <= k < |Rules| && Matches(Rules[k], c)
    ensures Label(c) == Rules[k].name
  {
    var i :| 0 <= i < |Rules| && Matches(Rules[i], c) && Lookup(Rules, c) == Some(Rules[i].name);
    if i < k { RulesDisjoint(c, i, k); }
    else if k < i { RulesDisjoint(c, k, i); }
  }

  /** A codec string that opens with none of the prefixes and equals none of
      the exact patterns is its own label. */
  lemma LabelOfNoMatch(c: string)
    requires !("avc1" <= c) && !("hvc1" <= c) && !("hev1" <= c) && !("av01" <= c) && !("vp09" <= c)
    requires c != "mp4a.40.2" && c != "mp4a.40.5" && c != "mp4a.40.29" && c != "ac-3" && c != "ec-3"
    ensures Label(c) == c
  {
    forall j | 0 <= j < |Rules| ensures !Matches(Rules[j], c) {
      if j == 0 { assert Rules[0] == PrefixRule("avc1", "H.264"); }
      else if j == 1 { assert Rules[1] == PrefixRule("hvc1", "H.265"); }
      else if j == 2 { assert Rules[2] == PrefixRule("hev1", "HEVC"); }
      else if j == 3 { assert Rules[3] == PrefixRule("av01", "AV1"); }
      else if j == 4 { assert Rules[4] == PrefixRule("vp09", "VP9"); }
      else if j == 5 { assert Rules[5] == ExactRule("mp4a.40.2", "AAC-LC"); }
      else if j == 6 { assert Rules[6] == ExactRule("mp4a.40.5", "HE-AAC (v1)"); }
      else if j == 7 { assert Rules[7] == ExactRule("mp4a.40.29", "HE-AAC v2"); }
      else if j == 8 { assert Rules[8] == ExactRule("ac-3", "Dolby AC-3"); }
      else { assert Rules[9] == ExactRule("ec-3", "Dolby E-AC-3 (Atmos)"); }
    }
  }

  /** The exact patterns are already lower-case, so comparing them with a
      lower-cased string up to case is plain equality. */
  lemma ExactPatternsLowerCase()
    ensures Lower("mp4a.40.2") == "mp4a.40.2" && Lower("mp4a.40.5") == "mp4a.40.5"
    ensures Lower("mp4a.40.29") == "mp4a.40.29"
    ensures Lower("ac-3") == "ac-3" && Lower("ec-3") == "ec-3"
  {
    LowerOfLowerCase("mp4a.40.2");
    LowerOfLowerCase("mp4a.40.5");
    LowerOfLowerCase("mp4a.40.29");
    LowerOfLowerCase("ac-3");
    LowerOfLowerCase("ec-3");
  }
}
