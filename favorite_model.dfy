/** The two record shapes of the favorites feature: the in-memory and remote
    `Favorite`, and the device-local `LocalFavorite`. */
module FavoriteModel {
  import opened Wrappers

  /** A JavaScript `Date`, represented by its ISO-8601 text. */
  datatype Date = Date(iso: string)

  /** `date.toISOString()`. */
  function ToIsoString(d: Date): string {
    d.iso
  }

  /** `new Date(text)` for text that `toISOString` produced. */
  function ParseDate(text: string): Date {
    Date(text)
  }

  /** The denormalised display payload a favorite may carry. */
  datatype MealData = MealData(strMeal: string, strMealThumb: string, strCategory: string)

  /** A favorite as held in the snapshot and written remotely. `userId` is
      absent on records that come from the local list. */
  datatype Favorite = Favorite(
    id: string,
    mealId: string,
    userId: Option<string>,
    addedAt: Date,
    mealData: Option<MealData>)

  /** A favorite as persisted on the device while no one is signed in. */
  datatype LocalFavorite = LocalFavorite(mealId: string, addedAt: string)

  function IdOf(f: Favorite): string {
    f.id
  }

  function MealIdOf(f: Favorite): string {
    f.mealId
  }

  function LocalMealIdOf(l: LocalFavorite): string {
    l.mealId
  }
}
