/** The achievement catalog and the awards table. */
module AchievementModels {
  import opened Wrappers
  import opened Users

  /** A catalog entry.  `ruleParams` is the JSON object of rule parameters,
      `None` when the column holds no object at all. */
  datatype Achievement = Achievement(
    code: string,
    title: string,
    description: string,
    icon: string,
    ruleType: string,
    ruleParams: Option<map<string, int>>)

  /** An award row.  The achievement foreign key is held as the achievement's
      code, which the catalog keeps unique; `awardedAt` is the creation time. */
  datatype UserAchievement = UserAchievement(user: UserId, code: string, awardedAt: int)

  /** The `unique=True` constraint on `Achievement.code`. */
  predicate UniqueCodes(catalog: seq<Achievement>)
  {
    forall i, j :: 0 <= i < j < |catalog| ==> catalog[i].code != catalog[j].code
  }

  /** The `unique_together = ("user", "achievement")` constraint. */
  predicate UniqueAwards(rows: seq<UserAchievement>)
  {
    forall i, j :: 0 <= i < j < |rows| ==>
      !(rows[i].user == rows[j].user && rows[i].code == rows[j].code)
  }

  /** A catalog entry as created with only its required fields: blank
      description and icon, and the default empty parameter object. */
  function NewAchievement(code: string, title: string, ruleType: string): (a: Achievement)
    ensures a.code == code && a.title == title && a.ruleType == ruleType
    ensures a.ruleParams == Some(map[])
  {
    Achievement(code, title, "", "", ruleType, Some(map[]))
  }

  /** `UserAchievement.__str__`: "<username> - <code>". */
  function AwardLabel(username: string, ua: UserAchievement): (s: string)
    ensures |s| == |username| + 3 + |ua.code|
    ensures s[..|username|] == username && s[|username| + 3..] == ua.code
    ensures s[|username|..|username| + 3] == " - "
  {
    username + " - " + ua.code
  }
}
