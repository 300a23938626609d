/** The route table (`routes`) and the side navigation: its nine links, which
    one is highlighted for the current location, and logging out. */
module SideNavigation {
  import opened Utils
  import Session

  const HOME := "/"
  const DASHBOARD := "/dashboard"
  const LOGIN := "/login"
  const PRIESTS := "/priests"
  const MASS := "/mass"
  const BAPTISM := "/baptism"
  const CONFIRMATION := "/confirmation"
  const WEDDING := "/wedding"
  const FUNERAL := "/funeral"
  const SCHEDULES := "/schedules"
  const ANNOUNCEMENTS := "/announcements"

  datatype NavLink = NavLink(link: string, caption: string)

  /** The links of the side navigation, in display order. */
  const Links: seq<NavLink> := [
    NavLink(DASHBOARD, "Dashboard"),
    NavLink(PRIESTS, "Priests"),
    NavLink(MASS, "Mass"),
    NavLink(BAPTISM, " Baptism"),
    NavLink(CONFIRMATION, "Confirmations"),
    NavLink(WEDDING, "Wedding"),
    NavLink(FUNERAL, "Funeral"),
    NavLink(SCHEDULES, "Schedules"),
    NavLink(ANNOUNCEMENTS, "Announcements")
  ]

  predicate IsNavLink(link: string) {
    exists i :: 0 <= i < |Links| && Links[i].link == link
  }

  /** `isActive(link)`: the dashboard link only on the dashboard itself; any
      other link whenever its path occurs in the location. */
  function IsActive(link: string, pathname: string): (r: bool)
    ensures link == DASHBOARD ==> (r <==> pathname == DASHBOARD)
    ensures link != DASHBOARD ==> (r <==> exists i :: OccursAt(pathname, link, i))
  {
    if link == DASHBOARD then pathname == DASHBOARD else Includes(pathname, link)
  }

  /** Every link is highlighted on its own page, and a section link stays
      highlighted on the pages below it, while the dashboard link does not. */
  lemma ActiveOnOwnPage(link: string, rest: string)
    ensures IsActive(link, link)
    ensures link != DASHBOARD ==> IsActive(link, link + rest)
    ensures rest != "" ==> !IsActive(DASHBOARD, DASHBOARD + rest)
  {
    assert OccursAt(link, link, 0);
    assert (link + rest)[0..|link|] == link;
    assert OccursAt(link + rest, link, 0);
  }

  /** The navigation links are exactly the sections of the route table other
      than the home and login pages, each listed once. */
  lemma LinksAreSections()
    ensures |Links| == 9
    ensures forall i, j :: 0 <= i < j < |Links| ==> Links[i].link != Links[j].link
    ensures forall i :: 0 <= i < |Links| ==> Links[i].link != HOME && Links[i].link != LOGIN
  {
  }

  /** The logout link: the session forgets the user. */
  function HandleLogout(s: Session.State): (r: Session.State)
    ensures !Session.SignedIn(r)
    ensures r == Session.Initial
  {
    Session.Logout(s)
  }
}
