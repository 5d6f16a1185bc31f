/** Tab tokens. The tab bar emits one vocabulary while the roster filter
    and the column table branch on another; both are kept as written, so
    a tab is a plain string token. */
module Tabs {

  type Tab = string

  /** The tokens the roster filter and the column table recognise. */
  const All: Tab := "all"
  const Students: Tab := "students"
  const Mentors: Tab := "mentors"

  /** The tokens the tab bar can emit (its `Tab` type). */
  const Emitted: set<Tab> := {"all", "student", "mentor"}

  predicate Recognized(tab: Tab) {
    tab == All || tab == Students || tab == Mentors
  }

  /** Of the emitted tokens only "all" is recognised: the two role tabs
      use the singular form, the filter and the table the plural. */
  lemma EmittedRecognized(tab: Tab)
    requires tab in Emitted
    ensures Recognized(tab) <==> tab == All
  {
  }
}
