/**
 * The record that one entry of the feed becomes: title, section name, display
 * date and web URL. All four fields are set once, by the constructor, and the
 * accessors only read them, so the record is an immutable value.
 */
module News {

  datatype UKNews = UKNews(title: string, sectionName: string, date: string, url: string)
  {
    /** `getTitle()` */
    function GetTitle(): string { title }

    /** `getSectionName()` */
    function GetSectionName(): string { sectionName }

    /** `getDates()`: the date text exactly as it was given to the constructor. */
    function GetDates(): string { date }

    /** `getUrl()` */
    function GetUrl(): string { url }
  }

  /** Each accessor returns the argument the constructor received in that position. */
  lemma AccessorsReturnConstructorArguments(title: string, sectionName: string, date: string, url: string)
    ensures UKNews(title, sectionName, date, url).GetTitle() == title
    ensures UKNews(title, sectionName, date, url).GetSectionName() == sectionName
    ensures UKNews(title, sectionName, date, url).GetDates() == date
    ensures UKNews(title, sectionName, date, url).GetUrl() == url
  {
  }

  /**
   * A record is nothing but its four fields: two records that agree on every
   * accessor are the same record, and rebuilding a record from its accessors
   * gives it back.
   */
  lemma RecordDeterminedByAccessors(n: UKNews, m: UKNews)
    ensures n == m <==>
      (n.GetTitle() == m.GetTitle() && n.GetSectionName() == m.GetSectionName() &&
       n.GetDates() == m.GetDates() && n.GetUrl() == m.GetUrl())
    ensures UKNews(n.GetTitle(), n.GetSectionName(), n.GetDates(), n.GetUrl()) == n
  {
  }
}
