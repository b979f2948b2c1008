/** The table columns the storage layer refers to by name. */
module Schema {

  /** A column. `Other` stands for any column the storage layer only passes through. */
  datatype Column =
    | Id | UserId | Email | PasswordHash | FirstName | LastName | ProfileImageUrl
    | Department | Position | Role | IsOnboardingComplete | NeedsPasswordReset | IsActive | ManagerId
    | CreatedAt | UpdatedAt | Date | Status | ApproverId | ApproverNotes | ApprovalDate
    | SubmissionDate | Month | Year | ProcessedAt
    | Other(name: string)
}
