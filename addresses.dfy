/** Resolution of an Outlook address entry to an SMTP address. */
module Addresses {
  import opened Wrappers

  datatype AddressEntryUserType =
    | ExchangeUserAddressEntry
    | ExchangeRemoteUserAddressEntry
    | OtherAddressEntry

  /** The Exchange user behind an Exchange address entry. */
  datatype ExchangeUser = ExchangeUser(primarySmtpAddress: string)

  /** An address entry; `exchangeUser` is what `GetExchangeUser()` returns for it. */
  datatype AddressEntry = AddressEntry(
    userType: AddressEntryUserType,
    address: string,
    exchangeUser: Option<ExchangeUser>)

  const Unknown := "Unknown"

  predicate IsExchangeEntry(entry: AddressEntry) {
    entry.userType == ExchangeUserAddressEntry || entry.userType == ExchangeRemoteUserAddressEntry
  }

  /**
   * An address entry the add-in cannot resolve: a missing entry, or an
   * Exchange entry without an Exchange user.
   */
  predicate Unresolvable(entry: Option<AddressEntry>) {
    entry.None? || (IsExchangeEntry(entry.value) && entry.value.exchangeUser.None?)
  }

  /**
   * The SMTP address of an entry: the primary SMTP address of an Exchange
   * user, the plain address of any other entry, and "Unknown" when the entry
   * cannot be resolved.
   */
  function GetSmtpAddress(entry: Option<AddressEntry>): (r: string)
    ensures Unresolvable(entry) ==> r == Unknown
    ensures !Unresolvable(entry) && IsExchangeEntry(entry.value) ==>
      r == entry.value.exchangeUser.value.primarySmtpAddress
    ensures !Unresolvable(entry) && !IsExchangeEntry(entry.value) ==> r == entry.value.address
  {
    if entry.Some? then
      if IsExchangeEntry(entry.value) then
        if entry.value.exchangeUser.Some? then entry.value.exchangeUser.value.primarySmtpAddress
        else Unknown
      else entry.value.address
    else Unknown
  }
}
