/** The coloured status badge of appointment rows (`StatusBadge`). */
module StatusBadge {
  import opened Wrappers
  import opened Json

  datatype Badge = Badge(color: Option<string>, text: string)

  /** `colorMapping[status]`: `None` for a status outside the mapping. */
  function ColorOf(status: string): Option<string> {
    if status == "approved" then Some("green")
    else if status == "pending" then Some("orange")
    else if status == "rejected" then Some("red")
    else None
  }

  /** Nothing for a falsy status; otherwise a badge showing `String(status)`
      in the colour mapped to it. */
  function Render(status: Value): (r: Option<Badge>)
    ensures r.None? <==> !Truthy(status)
    ensures r.Some? ==> r.value.text != "" && r.value.text == ToJsString(status)
    ensures r.Some? && status.Str? ==> r.value.color == ColorOf(status.s)
  {
    if !Truthy(status) then None
    else Some(Badge(if status.Str? then ColorOf(status.s) else None, ToJsString(status)))
  }

  /** The three statuses get three different colours, so the colour alone tells
      them apart; any other text gets no colour. */
  lemma ColorsDistinguishStatuses(a: string, b: string)
    ensures ColorOf(a).Some? <==> a in ["approved", "pending", "rejected"]
    ensures ColorOf(a).Some? && ColorOf(a) == ColorOf(b) ==> a == b
  {
  }
}
