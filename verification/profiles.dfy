/** The profile data the leaderboard carries along and the avatar lookup reads. */
module Profiles {
  import opened Wrappers

  datatype Gender = Male | Female

  /** A user's profile; `avatarUrl` is an uploaded picture that overrides the catalogue avatar. */
  datatype Profile = Profile(
    displayName: string,
    gender: Gender,
    avatarId: string,
    avatarUrl: Option<string>)
}
