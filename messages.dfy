/** The user-facing messages the handlers set, verbatim. */
module Messages {

  const AlreadyTaken: string := "Este artículo ya fue comprado por otra persona."
  const ThankYou: string := "¡Gracias por tu regalo! Este artículo ya no aparecerá como disponible."
  const ClaimFailed: string := "Error al marcar el regalo como comprado. Por favor, inténtalo de nuevo."
  const Added: string := "Nuevo regalo agregado exitosamente."
  const AddFailed: string := "Error al agregar el nuevo regalo. Por favor, inténtalo de nuevo."
  const UpdateFailed: string := "Error al actualizar el regalo. Por favor, inténtalo de nuevo."
  const Deleted: string := "Regalo eliminado exitosamente."
  const DeleteFailed: string := "Error al eliminar el regalo. Por favor, inténtalo de nuevo."
  const Reset: string := "Estado del regalo reiniciado exitosamente."
  const ResetFailed: string := "Error al reiniciar el estado del regalo. Por favor, inténtalo de nuevo."
}
