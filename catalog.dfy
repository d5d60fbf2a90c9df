/** The wordplay categories of a clue and the tooltip shown on its
    indicator words. */
module Catalog {
  import opened Text

  datatype ClueType =
    | Anagram | Hidden | Container | Reversal | Deletion | Homophone
    | Acrostic | Spoonerism | Charade | Double | Lit

  /** The lower-case name a clue record uses for the category. */
  function Name(t: ClueType): (r: string)
    ensures LowerCase(r) == r
  {
    match t
    case Anagram => "anagram"
    case Hidden => "hidden"
    case Container => "container"
    case Reversal => "reversal"
    case Deletion => "deletion"
    case Homophone => "homophone"
    case Acrostic => "acrostic"
    case Spoonerism => "spoonerism"
    case Charade => "charade"
    case Double => "double"
    case Lit => "lit"
  }

  /** The case-insensitive switch on the category string: `None` is the
      `default` branch. */
  function ParseClueType(s: string): (r: Option<ClueType>)
    ensures r.Some? ==> LowerCase(s) == Name(r.value)
  {
    var k := LowerCase(s);
    if k == "anagram" then Some(Anagram)
    else if k == "hidden" then Some(Hidden)
    else if k == "container" then Some(Container)
    else if k == "reversal" then Some(Reversal)
    else if k == "deletion" then Some(Deletion)
    else if k == "homophone" then Some(Homophone)
    else if k == "acrostic" then Some(Acrostic)
    else if k == "spoonerism" then Some(Spoonerism)
    else if k == "charade" then Some(Charade)
    else if k == "double" then Some(Double)
    else if k == "lit" then Some(Lit)
    else None
  }

  datatype Option<T> = None | Some(value: T)

  /** The tooltip of a recognised category; none of them is the default. */
  function Tooltip(t: ClueType): (r: string)
    ensures r != [] && r != DefaultIndicatorTip
  {
    match t
    case Anagram => "Anagram — shuffle the letters in the fodder."
    case Hidden => "Hidden — look inside the fodder."
    case Container => "Container — insert one part into another."
    case Reversal => "Reversal — read backwards."
    case Deletion => "Deletion — remove letters."
    case Homophone => "Homophone — sounds like."
    case Acrostic => "Acrostic — take first letters."
    case Spoonerism => "Spoonerism — swap starting sounds."
    case Charade => "Charade — build the answer in parts."
    case Double => "Double definition — two meanings, one word."
    case Lit => "&lit — whole clue is definition and wordplay."
  }

  const DefaultIndicatorTip := "Indicator"

  /** `getIndicatorTooltipByType`: total; an absent category is the empty
      string. The tooltip is never empty, so every indicator span carries a
      `data-tip` attribute, and it is the default exactly for a category that
      is not one of the eleven. */
  function IndicatorTooltipByType(clueType: string): (r: string)
    ensures r != []
    ensures r == DefaultIndicatorTip <==> ParseClueType(clueType) == None
  {
    match ParseClueType(clueType)
    case Some(t) => Tooltip(t)
    case None => DefaultIndicatorTip
  }

  /** Every category's own name is recognised, and only it. */
  lemma ParseName(t: ClueType, s: string)
    ensures ParseClueType(Name(t)) == Some(t)
    ensures ParseClueType(s) == Some(t) <==> LowerCase(s) == Name(t)
  {
  }

  /** The lookup ignores case. */
  lemma IndicatorTooltipIgnoresCase(clueType: string)
    ensures IndicatorTooltipByType(UpperCase(clueType)) == IndicatorTooltipByType(clueType)
  {
    LowerOfUpper(clueType);
  }
}
