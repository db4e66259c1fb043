/**
 * The shape of one row of the `news` table as the News model sees it: the
 * mass-assignable columns, with `published_date` cast to a date and
 * `is_featured` and `view_count` cast to a boolean and an integer.
 */
module News {
  import opened Wrappers

  /** A calendar date, as the `date` cast produces for `published_date`. */
  datatype Date = Date(year: int, month: int, day: int)

  /** A news record. `type` is a reserved word in Dafny, hence `newsType`. */
  datatype NewsItem = NewsItem(
    title: string,
    description: Option<string>,
    content: string,
    category: string,
    newsType: string,
    featuredImage: Option<string>,
    publishedDate: Option<Date>,
    status: string,
    membershipRequirement: string,
    viewCount: int,
    isFeatured: bool,
    createdBy: Option<int>,
    updatedBy: Option<int>
  )
}
