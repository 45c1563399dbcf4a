/** The category-to-colour and category-to-label tables shared by the
    activity tracker and the social feed (both components declare the same
    two tables and the same fallbacks). */
module Categories {

  const Colors: map<string, string> := map[
    "study-cs" := "bg-blue-500",
    "study-econ" := "bg-green-500",
    "gym" := "bg-red-500",
    "reading" := "bg-purple-500",
    "personal" := "bg-yellow-500"
  ]

  const Labels: map<string, string> := map[
    "study-cs" := "CS Study",
    "study-econ" := "Econ Study",
    "gym" := "Gym",
    "reading" := "Reading",
    "personal" := "Personal"
  ]

  /** The colour class of a category; unknown categories are grey. */
  function CategoryColor(category: string): (r: string)
    ensures category in Colors ==> r == Colors[category]
    ensures r == "bg-gray-500" <==> category !in Colors
  {
    if category in Colors then Colors[category] else "bg-gray-500"
  }

  /** The display label of a category; an unknown category is shown as itself. */
  function CategoryLabel(category: string): (r: string)
    ensures category in Labels ==> r == Labels[category]
    ensures category !in Labels ==> r == category
    ensures category != "" ==> r != ""
  {
    if category in Labels then Labels[category] else category
  }
}
